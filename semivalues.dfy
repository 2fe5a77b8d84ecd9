/**
 * Semi-value coefficients and marginal utilities (src/pydvl/value/semivalues.py).
 *
 * A semi-value of data point i is a weighted sum, over the subsets S of
 * D \ {i}, of the marginal utility u(S ∪ {i}) - u(S), the weight depending
 * only on |S|. The library folds the usual 1/n factor into the weight, so
 * the weights of the subsets of D \ {i} add up to 1. Floats are modelled by
 * exact reals.
 */
module Semivalues {
  import opened Combinatorics
  import opened SubsetSums

  /**
   * A utility: the number of data points n (their indices are 0..n-1) and the
   * score of the model trained on each subset of indices. Fitting and scoring
   * are abstracted into `eval`.
   */
  datatype Utility = Utility(dataSize: nat, eval: set<int> -> real)

  /** A sample: an index and a subset of indices. */
  datatype Sample = Sample(idx: int, subset: set<int>)

  /**
   * The Shapley coefficient 1 / C(n - 1, k) / n. Outside 0 < n, k < n the
   * source fails (`math.comb` is 0, or rejects n - 1 < 0).
   */
  function ShapleyCoefficient(n: nat, k: nat): (r: real)
    requires 0 < n && k < n
    ensures 0.0 < r <= 1.0 / (n as real)
  {
    BinomialPositive(n - 1, k);
    var c := Binomial(n - 1, k) as real;
    assert 1.0 / c <= 1.0;
    1.0 / c / (n as real)
  }

  /**
   * The Banzhaf coefficient 1 / 2^(n - 1), the same for every subset size.
   * For n = 0 Python computes 2 ** -1 == 0.5 and returns 2.0.
   */
  function BanzhafCoefficient(n: nat, k: int): (r: real)
    ensures 0.0 < r
    ensures n >= 1 ==> r * (Pow2(n - 1) as real) == 1.0
    ensures n == 0 ==> r == 2.0
  {
    if n == 0 then 2.0 else 1.0 / (Pow2(n - 1) as real)
  }

  /**
   * The marginal utility of a sample (i, S), weighted by the coefficient of
   * a subset of size |S| among n = u.dataSize points. The source asks the
   * utility for {i} ∪ S, which is S itself when i is already in S.
   */
  function Marginal(u: Utility, coefficient: (nat, nat) --> real, sample: Sample): (r: (int, real))
    requires coefficient.requires(u.dataSize, |sample.subset|)
    ensures r.0 == sample.idx
    ensures sample.idx in sample.subset ==> r.1 == 0.0
    ensures (u.eval({sample.idx} + sample.subset) >= u.eval(sample.subset)
             && coefficient(u.dataSize, |sample.subset|) >= 0.0) ==> r.1 >= 0.0
  {
    var marginal := (u.eval({sample.idx} + sample.subset) - u.eval(sample.subset))
                    * coefficient(u.dataSize, |sample.subset|);
    assert sample.idx in sample.subset ==> {sample.idx} + sample.subset == sample.subset;
    (sample.idx, marginal)
  }

  // ---------------------------------------------------------------------------
  // Normalisation

  /**
   * The weight a coefficient gives to all subsets of D \ {i} of size below m
   * (n = |D|): the sum over k < m of C(n - 1, k) * coefficient(n, k).
   */
  function SizeWeightSum(coefficient: (nat, int) -> real, n: nat, m: nat): real
    requires 0 < n
  {
    if m == 0 then 0.0
    else SizeWeightSum(coefficient, n, m - 1) + ClassWeight(coefficient, n, m - 1)
  }

  /** The weight of all C(n - 1, k) subsets of size k of D \ {i}. */
  function ClassWeight(coefficient: (nat, int) -> real, n: nat, k: nat): real
    requires 0 < n
  {
    (Binomial(n - 1, k) as real) * coefficient(n, k)
  }

  /** When every size class carries the same total weight x, the first m classes carry m times x. */
  lemma {:induction false} EqualClasses(coefficient: (nat, int) -> real, n: nat, m: nat, x: real)
    requires 0 < n
    requires forall k: nat :: k < m ==> ClassWeight(coefficient, n, k) == x
    ensures SizeWeightSum(coefficient, n, m) == Times(m, x)
  {
    if m > 0 {
      EqualClasses(coefficient, n, m - 1, x);
    }
  }

  /** When every subset carries the same weight x, the subsets of size below m carry RowSum times x. */
  lemma {:induction false} EqualSubsets(coefficient: (nat, int) -> real, n: nat, m: nat, x: real)
    requires 0 < n
    requires forall k: nat :: k < m ==> coefficient(n, k) == x
    ensures SizeWeightSum(coefficient, n, m) == (RowSum(n - 1, m) as real) * x
  {
    if m > 0 {
      EqualSubsets(coefficient, n, m - 1, x);
      Distribute(RowSum(n - 1, m - 1), Binomial(n - 1, m - 1), x);
    }
  }

  // All C(n - 1, k) subsets of one size together get weight 1 / n.
  lemma ShapleyTerm(n: nat, k: nat)
    requires 0 < n && k < n
    ensures ClassWeight(Weight, n, k) == 1.0 / (n as real)
  {
    BinomialPositive(n - 1, k);
    var c := Binomial(n - 1, k) as real;
    assert Weight(n, k) == 1.0 / c / (n as real);
    CancelCount(c, n as real);
  }

  lemma CancelCount(c: real, n: real)
    requires c > 0.0 && n > 0.0
    ensures c * (1.0 / c / n) == 1.0 / n
  {
  }

  /** The Shapley weights of all subsets of D \ {i} add up to 1. */
  lemma ShapleyNormalised(n: nat)
    requires n >= 1
    ensures SizeWeightSum(Weight, n, n) == 1.0
  {
    forall k: nat | k < n ensures ClassWeight(Weight, n, k) == 1.0 / (n as real) {
      ShapleyTerm(n, k);
    }
    EqualClasses(Weight, n, n, 1.0 / (n as real));
    TimesIsProduct(n, 1.0 / (n as real));
  }

  lemma Distribute(a: nat, b: nat, w: real)
    ensures (a as real) * w + (b as real) * w == ((a + b) as real) * w
  {
  }

  /** The Banzhaf weights of all subsets of D \ {i} add up to 1: there are 2^(n-1) of them. */
  lemma BanzhafNormalised(n: nat)
    requires n >= 1
    ensures SizeWeightSum(BanzhafCoefficient, n, n) == 1.0
  {
    EqualSubsets(BanzhafCoefficient, n, n, BanzhafCoefficient(n, 0));
    RowSumIsPow2(n - 1);
  }

  /** The Banzhaf coefficient does not depend on the subset size. */
  lemma BanzhafSizeIndependent(n: nat, k: int, k': int)
    ensures BanzhafCoefficient(n, k) == BanzhafCoefficient(n, k')
  {
  }

  /** A subset and its complement in D \ {i} get the same Shapley weight. */
  lemma ShapleySymmetric(n: nat, k: nat)
    requires 0 < n && k < n
    ensures ShapleyCoefficient(n, k) == ShapleyCoefficient(n, n - 1 - k)
  {
    BinomialSymmetry(n - 1, k);
  }

  // ---------------------------------------------------------------------------
  // Efficiency

  /**
   * The weighted marginal of i for each subset S of D \ {i}, as `_marginal`
   * computes it with the Shapley coefficient. Outside D \ {i} it is 0; the
   * sum below never looks there.
   */
  function ShapleyMarginals(u: Utility, i: int): set<int> -> real
    requires 0 <= i < u.dataSize
  {
    var others := Elems(Others(u.dataSize, i));
    OthersCard(u.dataSize, i);
    S => if S <= others then (SubsetCard(S, others); Marginal(u, ShapleyCoefficient, Sample(i, S)).1) else 0.0
  }

  /** The exact Shapley value of point i: the sum of its weighted marginals over the subsets of D \ {i}. */
  function ShapleyValue(u: Utility, i: int): (r: real)
    requires 0 <= i < u.dataSize
    ensures IsNull(u, i) ==> r == 0.0
  {
    NullPlayer(u, i);
    SubsetSum(ShapleyMarginals(u, i), Others(u.dataSize, i))
  }

  /** Point i never changes the utility: u(S ∪ {i}) = u(S) for every S. */
  ghost predicate IsNull(u: Utility, i: int)
  {
    forall S :: u.eval({i} + S) == u.eval(S)
  }

  /** A null point's marginals are all 0, so its value is 0. */
  lemma NullPlayer(u: Utility, i: int)
    requires 0 <= i < u.dataSize
    ensures IsNull(u, i) ==> SubsetSum(ShapleyMarginals(u, i), Others(u.dataSize, i)) == 0.0
  {
    if IsNull(u, i) {
      var others := Elems(Others(u.dataSize, i));
      forall S | S <= others ensures ShapleyMarginals(u, i)(S) == 0.0 {
        assert u.eval({i} + S) == u.eval(S);
      }
      SumZero(ShapleyMarginals(u, i), Others(u.dataSize, i));
    }
  }

  /** The exact Shapley values of all points, as a function of the index (0 outside D). */
  function ShapleyValues(u: Utility): (r: int -> real)
    ensures forall i :: !(0 <= i < u.dataSize) ==> r(i) == 0.0
    ensures forall i :: 0 <= i < u.dataSize && IsNull(u, i) ==> r(i) == 0.0
  {
    i => if 0 <= i < u.dataSize then ShapleyValue(u, i) else 0.0
  }

  /** The Shapley coefficient, extended by 0 outside 0 <= k < n. */
  function Weight(n: nat, k: int): real
  {
    if 0 < n && 0 <= k < n then ShapleyCoefficient(n, k) else 0.0
  }

  /**
   * How u(T) enters the marginals of i: with the weight of T \ {i} when i is
   * in T, and with minus the weight of T when it is not.
   */
  function Contributions(u: Utility): (int, set<int>) -> real
  {
    (i, T) => if i in T then Weight(u.dataSize, |T| - 1) * u.eval(T) else -(Weight(u.dataSize, |T|) * u.eval(T))
  }

  lemma ShapleyValueAsContributions(u: Utility, i: int)
    requires 0 <= i < u.dataSize
    ensures ShapleyValue(u, i) == RowSums(Contributions(u), Indices(u.dataSize))(i)
  {
    var n := u.dataSize;
    var h := Contributions(u);
    var others := Others(n, i);
    SumSplit(Slice(h, i), n, i);
    SumPlus(Slice(h, i), Shift(Slice(h, i), i), others);
    OthersCard(n, i);
    forall S | S <= Elems(others)
      ensures Plus(Slice(h, i), Shift(Slice(h, i), i))(S) == ShapleyMarginals(u, i)(S)
    {
      MarginalAsContributions(u, i, S);
    }
    SumExt(Plus(Slice(h, i), Shift(Slice(h, i), i)), ShapleyMarginals(u, i), others);
  }

  // One subset S of D \ {i}: its weighted marginal is the contribution of
  // S without i plus that of S with i.
  lemma MarginalAsContributions(u: Utility, i: int, S: set<int>)
    requires 0 <= i < u.dataSize && S <= Elems(Others(u.dataSize, i))
    ensures Plus(Slice(Contributions(u), i), Shift(Slice(Contributions(u), i), i))(S) == ShapleyMarginals(u, i)(S)
  {
    var n := u.dataSize;
    OthersCard(n, i);
    SubsetCard(S, Elems(Others(n, i)));
    assert i !in S;
    ContributionsAt(u, i, S);
    MarginalAt(u, i, S);
  }

  // The two contributions of S, as one weighted marginal.
  lemma ContributionsAt(u: Utility, i: int, S: set<int>)
    requires i !in S
    ensures Plus(Slice(Contributions(u), i), Shift(Slice(Contributions(u), i), i))(S)
         == (u.eval({i} + S) - u.eval(S)) * Weight(u.dataSize, |S|)
  {
    assert |S + {i}| - 1 == |S|;
    assert {i} + S == S + {i};
    var a, b := u.eval(S + {i}), u.eval(S);
    var w := Weight(u.dataSize, |S|);
    WithoutIndex(u, i, S);
    WithIndex(u, i, S);
    MarginalSplits(a, b, w);
  }

  lemma WithoutIndex(u: Utility, i: int, S: set<int>)
    requires i !in S
    ensures Slice(Contributions(u), i)(S) == -(Weight(u.dataSize, |S|) * u.eval(S))
  {
  }

  lemma WithIndex(u: Utility, i: int, S: set<int>)
    ensures Shift(Slice(Contributions(u), i), i)(S) == Weight(u.dataSize, |S + {i}| - 1) * u.eval(S + {i})
  {
  }

  lemma MarginalAt(u: Utility, i: int, S: set<int>)
    requires 0 <= i < u.dataSize && S <= Elems(Others(u.dataSize, i)) && |S| < u.dataSize
    ensures ShapleyMarginals(u, i)(S) == (u.eval({i} + S) - u.eval(S)) * Weight(u.dataSize, |S|)
  {
    ShapleyMarginalsAt(u, i, S);
    ShapleyMarginal(u, i, S);
  }

  lemma ShapleyMarginalsAt(u: Utility, i: int, S: set<int>)
    requires 0 <= i < u.dataSize && S <= Elems(Others(u.dataSize, i)) && |S| < u.dataSize
    ensures ShapleyMarginals(u, i)(S) == Marginal(u, ShapleyCoefficient, Sample(i, S)).1
  {
  }

  lemma ShapleyMarginal(u: Utility, i: int, S: set<int>)
    requires 0 <= i < u.dataSize && |S| < u.dataSize
    ensures Marginal(u, ShapleyCoefficient, Sample(i, S)).1 == (u.eval({i} + S) - u.eval(S)) * Weight(u.dataSize, |S|)
  {
    MarginalValue(u, ShapleyCoefficient, i, S);
  }

  lemma MarginalValue(u: Utility, coefficient: (nat, nat) --> real, i: int, S: set<int>)
    requires coefficient.requires(u.dataSize, |S|)
    ensures Marginal(u, coefficient, Sample(i, S)).1 == (u.eval({i} + S) - u.eval(S)) * coefficient(u.dataSize, |S|)
  {
  }

  lemma MarginalSplits(a: real, b: real, w: real)
    ensures (a - b) * w == -(w * b) + w * a
  {
  }

  lemma AllValuesAsContributions(u: Utility)
    ensures SumTo(ShapleyValues(u), u.dataSize) == SumTo(RowSums(Contributions(u), Indices(u.dataSize)), u.dataSize)
  {
    forall i | 0 <= i < u.dataSize
      ensures ShapleyValues(u)(i) == RowSums(Contributions(u), Indices(u.dataSize))(i)
    {
      ShapleyValueAsContributions(u, i);
    }
    SumToExt(ShapleyValues(u), RowSums(Contributions(u), Indices(u.dataSize)), u.dataSize);
  }

  // The arithmetic behind the cancellation: the weights of a set T of size t,
  // entering through its t members and through its n - t non-members, agree.
  lemma WeightsCancel(n: nat, t: nat)
    requires 0 < t < n
    ensures (t as real) * Weight(n, t - 1) == ((n - t) as real) * Weight(n, t)
  {
    var p, q := Binomial(n - 1, t - 1), Binomial(n - 1, t);
    NeighbourCounts(n, t);
    BinomialPositive(n - 1, t);
    BinomialPositive(n - 1, t - 1);
    WeightsFromCounts(n, t, p, q);
  }

  // t subsets of size t - 1 of D \ {i} for every n - t of size t.
  lemma NeighbourCounts(n: nat, t: nat)
    requires 0 < t < n
    ensures t * Binomial(n - 1, t) == (n - t) * Binomial(n - 1, t - 1)
  {
    AdjacentRatio(n - 1, t);
  }

  lemma WeightsFromCounts(n: nat, t: nat, p: nat, q: nat)
    requires 0 < t < n && p > 0 && q > 0 && t * q == (n - t) * p
    ensures (t as real) * (1.0 / (p as real) / (n as real)) == ((n - t) as real) * (1.0 / (q as real) / (n as real))
  {
    RealCross(t, n - t, p, q);
    CrossMultiply(t as real, (n - t) as real, p as real, q as real, n as real);
  }

  lemma RealCross(t: int, s: int, p: int, q: int)
    requires t * q == s * p
    ensures (t as real) * (q as real) == (s as real) * (p as real)
  {
    assert (t as real) * (q as real) == (t * q) as real;
    assert (s as real) * (p as real) == (s * p) as real;
  }

  lemma CrossMultiply(a: real, b: real, p: real, q: real, n: real)
    requires p > 0.0 && q > 0.0 && n > 0.0 && a * q == b * p
    ensures a * (1.0 / p / n) == b * (1.0 / q / n)
  {
    assert a * (1.0 / p / n) == a / (p * n);
    assert b * (1.0 / q / n) == b / (q * n);
    assert a / (p * n) == (a * q) / (p * q * n);
    assert b / (q * n) == (b * p) / (p * q * n);
  }

  /** The share of u(T) in the marginal of a member of T ... */
  function MemberShare(u: Utility, T: set<int>): real
  {
    Weight(u.dataSize, |T| - 1) * u.eval(T)
  }

  /** ... and in the marginal of a non-member. */
  function OtherShare(u: Utility, T: set<int>): real
  {
    -(Weight(u.dataSize, |T|) * u.eval(T))
  }

  lemma Shares(u: Utility, T: set<int>)
    ensures MemberShare(u, T) == Weight(u.dataSize, |T| - 1) * u.eval(T)
    ensures OtherShare(u, T) == -(Weight(u.dataSize, |T|) * u.eval(T))
  {
  }

  lemma ColumnAsIndicator(u: Utility, T: set<int>)
    ensures ColumnSums(Contributions(u), u.dataSize)(T)
         == SumTo(Indicator(T, MemberShare(u, T), OtherShare(u, T)), u.dataSize)
  {
    var n := u.dataSize;
    forall i | 0 <= i < n
      ensures Column(Contributions(u), T)(i) == Indicator(T, MemberShare(u, T), OtherShare(u, T))(i)
    {
    }
    SumToExt(Column(Contributions(u), T), Indicator(T, MemberShare(u, T), OtherShare(u, T)), n);
  }

  /** Over all i, the contributions of u(T) add up to |T| member shares and n - |T| other shares. */
  lemma ColumnCount(u: Utility, T: set<int>)
    requires T <= Range(u.dataSize)
    ensures |T| <= u.dataSize
    ensures ColumnSums(Contributions(u), u.dataSize)(T)
         == Times(|T|, MemberShare(u, T)) + Times(u.dataSize - |T|, OtherShare(u, T))
  {
    ColumnAsIndicator(u, T);
    SumIndicatorCard(T, MemberShare(u, T), OtherShare(u, T), u.dataSize);
  }

  lemma WeightOfEnds(n: nat)
    requires n > 0
    ensures Weight(n, 0) == 1.0 / (n as real)
    ensures Weight(n, n - 1) == 1.0 / (n as real)
  {
    BinomialDiagonal(n - 1);
  }

  lemma EmptyColumn(n: nat, w: real, e: real, column: real, x: real, y: real)
    requires n > 0 && w == 1.0 / (n as real)
    requires column == Times(0, x) + Times(n - 0, y)
    requires y == -(w * e)
    ensures column == -e
  {
    TimesIsProduct(n, y);
  }

  lemma FullColumn(n: nat, w: real, e: real, column: real, x: real, y: real)
    requires n > 0 && w == 1.0 / (n as real)
    requires column == Times(n, x) + Times(n - n, y)
    requires x == w * e
    ensures column == e
  {
    TimesIsProduct(n, x);
  }

  lemma BalancedColumn(t: nat, s: nat, w: real, w': real, e: real, column: real, x: real, y: real)
    requires column == Times(t, x) + Times(s, y)
    requires x == w * e && y == -(w' * e)
    requires (t as real) * w == (s as real) * w'
    ensures column == 0.0
  {
    TimesIsProduct(t, w * e);
    TimesIsProduct(s, -(w' * e));
    assert (t as real) * (w * e) == ((t as real) * w) * e;
    assert (s as real) * (w' * e) == ((s as real) * w') * e;
  }

  lemma EmptyColumnTotal(u: Utility)
    requires u.dataSize > 0
    ensures ColumnSums(Contributions(u), u.dataSize)({}) == -u.eval({})
  {
    var n := u.dataSize;
    var empty: set<int> := {};
    ColumnCount(u, empty);
    assert |empty| == 0;
    WeightOfEnds(n);
    Shares(u, empty);
    EmptyColumn(n, Weight(n, 0), u.eval(empty), ColumnSums(Contributions(u), n)(empty),
                MemberShare(u, empty), OtherShare(u, empty));
  }

  lemma FullColumnTotal(u: Utility)
    requires u.dataSize > 0
    ensures ColumnSums(Contributions(u), u.dataSize)(Range(u.dataSize)) == u.eval(Range(u.dataSize))
  {
    var n := u.dataSize;
    var full := Range(n);
    ColumnCount(u, full);
    RangeCard(n);
    WeightOfEnds(n);
    Shares(u, full);
    FullColumn(n, Weight(n, n - 1), u.eval(full), ColumnSums(Contributions(u), n)(full),
               MemberShare(u, full), OtherShare(u, full));
  }

  lemma InnerColumnTotal(u: Utility, T: set<int>)
    requires T <= Range(u.dataSize) && 0 < |T| < u.dataSize
    ensures ColumnSums(Contributions(u), u.dataSize)(T) == 0.0
  {
    var n, t := u.dataSize, |T|;
    ColumnCount(u, T);
    WeightsCancel(n, t);
    Shares(u, T);
    BalancedColumn(t, n - t, Weight(n, t - 1), Weight(n, t), u.eval(T), ColumnSums(Contributions(u), n)(T),
                   MemberShare(u, T), OtherShare(u, T));
  }

  /** u(D) on D, -u(∅) on ∅, 0 elsewhere. */
  function Ends(u: Utility): set<int> -> real
  {
    Plus(Point(Range(u.dataSize), u.eval(Range(u.dataSize))), Scale(-1.0, Point({}, u.eval({}))))
  }

  /**
   * For every T ⊆ D the contributions of u(T) over all i add up to u(D) when
   * T = D, to -u(∅) when T = ∅, and to 0 otherwise.
   */
  lemma ColumnTotal(u: Utility, T: set<int>)
    requires u.dataSize > 0 && T <= Range(u.dataSize)
    ensures ColumnSums(Contributions(u), u.dataSize)(T) == Ends(u)(T)
  {
    var n := u.dataSize;
    RangeCard(n);
    assert 0 in Range(n);
    if T == {} {
      EmptyColumnTotal(u);
    } else if T == Range(n) {
      FullColumnTotal(u);
    } else {
      SubsetCard(T, Range(n));
      if |T| == n {
        SubsetCardEqual(T, Range(n));
      }
      InnerColumnTotal(u, T);
    }
  }

  /**
   * Efficiency: the exact Shapley values of all points add up to
   * u(D) - u(∅), which is what the Monte Carlo estimators are checked
   * against.
   */
  lemma Efficiency(u: Utility)
    ensures SumTo(ShapleyValues(u), u.dataSize) == u.eval(Range(u.dataSize)) - u.eval({})
  {
    var n := u.dataSize;
    if n == 0 {
      assert Range(0) == {};
    } else {
      var h := Contributions(u);
      var ends := Ends(u);
      AllValuesAsContributions(u);
      SumSwap(h, n, Indices(n));
      forall T | T <= Elems(Indices(n)) ensures ColumnSums(h, n)(T) == ends(T) {
        ColumnTotal(u, T);
      }
      SumExt(ColumnSums(h, n), ends, Indices(n));
      SumPlus(Point(Range(n), u.eval(Range(n))), Scale(-1.0, Point({}, u.eval({}))), Indices(n));
      SumScale(-1.0, Point({}, u.eval({})), Indices(n));
      SumPoint(Range(n), u.eval(Range(n)), n);
      SumPoint({}, u.eval({}), n);
    }
  }
}
