/**
 * Finite sums over the subsets of a set of data indices, and over a range of
 * indices. A semi-value is a weighted sum of marginal utilities over the
 * subsets of D \ {i}; these are the tools to state and rearrange such sums.
 */
module SubsetSums {

  /** The index sequence 0, 1, ..., n - 1 of a data set with n points. */
  function Indices(n: nat): (r: seq<int>)
    ensures |r| == n
    ensures forall x :: x in r <==> 0 <= x < n
  {
    if n == 0 then [] else Indices(n - 1) + [n - 1]
  }

  /** The index set {0, ..., n - 1}. */
  function Range(n: nat): (r: set<int>)
    ensures forall x :: x in r <==> 0 <= x < n
  {
    Elems(Indices(n))
  }

  /** The elements of xs as a set. */
  function Elems<T>(xs: seq<T>): set<T>
  {
    set x | x in xs
  }

  /** The indices 0, ..., n - 1 without i, in increasing order. */
  function Others(n: nat, i: int): (r: seq<int>)
    ensures forall x :: x in r <==> 0 <= x < n && x != i
  {
    if n == 0 then []
    else if n - 1 == i then Others(n - 1, i)
    else Others(n - 1, i) + [n - 1]
  }

  lemma {:induction false} RangeCard(n: nat)
    ensures |Range(n)| == n
  {
    if n > 0 {
      RangeCard(n - 1);
      assert Range(n) == Range(n - 1) + {n - 1};
    }
  }

  lemma {:induction false} OthersCard(n: nat, i: int)
    requires 0 <= i < n
    ensures |Elems(Others(n, i))| == n - 1
  {
    RangeCard(n);
    assert Elems(Others(n, i)) == Range(n) - {i};
  }

  lemma {:induction false} OthersPastEnd(n: nat, i: int)
    requires i >= n
    ensures Others(n, i) == Indices(n)
  {
    if n > 0 {
      OthersPastEnd(n - 1, i);
    }
  }

  lemma SubsetCard<T>(a: set<T>, b: set<T>)
    requires a <= b
    ensures |a| <= |b|
  {
    assert b == a + (b - a);
  }

  lemma SubsetCardEqual(a: set<int>, b: set<int>)
    requires a <= b && |a| == |b|
    ensures a == b
  {
    assert b == a + (b - a);
    assert |b - a| == 0;
  }

  // ---------------------------------------------------------------------------
  // Combinators on set functions, named so that lemmas can refer to them

  /** S |-> g(S ∪ {x}) */
  function Shift(g: set<int> -> real, x: int): set<int> -> real
  {
    S => g(S + {x})
  }

  /** S |-> f(S) + g(S) */
  function Plus(f: set<int> -> real, g: set<int> -> real): set<int> -> real
  {
    S => f(S) + g(S)
  }

  /** S |-> c * f(S) */
  function Scale(c: real, f: set<int> -> real): set<int> -> real
  {
    S => c * f(S)
  }

  /** The function that is v at A and 0 elsewhere. */
  function Point(A: set<int>, v: real): set<int> -> real
  {
    S => if S == A then v else 0.0
  }

  // ---------------------------------------------------------------------------
  // Sums

  /**
   * The sum of g(S) over every subset S of the elements of xs (which are
   * distinct wherever this is used): the subsets without the last element,
   * then those with it.
   */
  function SubsetSum(g: set<int> -> real, xs: seq<int>): real
    decreases |xs|
  {
    if xs == [] then g({})
    else SubsetSum(g, xs[..|xs| - 1]) + SubsetSum(Shift(g, xs[|xs| - 1]), xs[..|xs| - 1])
  }

  /** f(0) + ... + f(m - 1) */
  function SumTo(f: int -> real, m: nat): real
  {
    if m == 0 then 0.0 else SumTo(f, m - 1) + f(m - 1)
  }

  /** A subset sum only looks at subsets of the elements. */
  lemma {:induction false} SumExt(f: set<int> -> real, g: set<int> -> real, xs: seq<int>)
    requires forall S :: S <= Elems(xs) ==> f(S) == g(S)
    ensures SubsetSum(f, xs) == SubsetSum(g, xs)
    decreases |xs|
  {
    if xs != [] {
      var init, x := xs[..|xs| - 1], xs[|xs| - 1];
      assert xs == init + [x];
      SumExt(f, g, init);
      forall S | S <= Elems(init) ensures Shift(f, x)(S) == Shift(g, x)(S) {
        assert S + {x} <= Elems(xs);
      }
      SumExt(Shift(f, x), Shift(g, x), init);
    }
  }

  lemma {:induction false} SumZero(g: set<int> -> real, xs: seq<int>)
    requires forall S :: S <= Elems(xs) ==> g(S) == 0.0
    ensures SubsetSum(g, xs) == 0.0
    decreases |xs|
  {
    if xs != [] {
      var init, x := xs[..|xs| - 1], xs[|xs| - 1];
      assert xs == init + [x];
      SumZero(g, init);
      forall S | S <= Elems(init) ensures Shift(g, x)(S) == 0.0 {
        assert S + {x} <= Elems(xs);
      }
      SumZero(Shift(g, x), init);
    }
  }

  lemma {:induction false} SumPlus(f: set<int> -> real, g: set<int> -> real, xs: seq<int>)
    ensures SubsetSum(Plus(f, g), xs) == SubsetSum(f, xs) + SubsetSum(g, xs)
    decreases |xs|
  {
    if xs != [] {
      var init, x := xs[..|xs| - 1], xs[|xs| - 1];
      SumPlus(f, g, init);
      SumPlus(Shift(f, x), Shift(g, x), init);
      forall S | S <= Elems(init)
        ensures Shift(Plus(f, g), x)(S) == Plus(Shift(f, x), Shift(g, x))(S)
      {
      }
      SumExt(Shift(Plus(f, g), x), Plus(Shift(f, x), Shift(g, x)), init);
    }
  }

  lemma {:induction false} SumScale(c: real, f: set<int> -> real, xs: seq<int>)
    ensures SubsetSum(Scale(c, f), xs) == c * SubsetSum(f, xs)
    decreases |xs|
  {
    if xs != [] {
      var init, x := xs[..|xs| - 1], xs[|xs| - 1];
      SumScale(c, f, init);
      SumScale(c, Shift(f, x), init);
      forall S | S <= Elems(init)
        ensures Shift(Scale(c, f), x)(S) == Scale(c, Shift(f, x))(S)
      {
      }
      SumExt(Shift(Scale(c, f), x), Scale(c, Shift(f, x)), init);
      assert c * (SubsetSum(f, init) + SubsetSum(Shift(f, x), init))
          == c * SubsetSum(f, init) + c * SubsetSum(Shift(f, x), init);
    }
  }

  /** Summing a function that is v at one subset A of the indices, and 0 elsewhere, gives v. */
  lemma {:induction false} SumPoint(A: set<int>, v: real, n: nat)
    requires A <= Range(n)
    ensures SubsetSum(Point(A, v), Indices(n)) == v
  {
    if n == 0 {
      assert A == {};
    } else {
      var x := n - 1;
      var init := Indices(n - 1);
      assert Indices(n)[..n - 1] == init;
      if x in A {
        forall S | S <= Elems(init) ensures Point(A, v)(S) == 0.0 {
          assert x !in S;
        }
        SumZero(Point(A, v), init);
        forall S | S <= Elems(init) ensures Shift(Point(A, v), x)(S) == Point(A - {x}, v)(S) {
          assert x !in S;
          assert S + {x} == A <==> S == A - {x};
        }
        SumExt(Shift(Point(A, v), x), Point(A - {x}, v), init);
        SumPoint(A - {x}, v, n - 1);
      } else {
        SumPoint(A, v, n - 1);
        forall S | S <= Elems(init) ensures Shift(Point(A, v), x)(S) == 0.0 {
          assert x in S + {x};
        }
        SumZero(Shift(Point(A, v), x), init);
      }
    }
  }

  /**
   * Splitting on index i: a sum over the subsets of {0..n-1} is the sum over
   * the subsets of {0..n-1} \ {i}, plus the same sum with i added to each.
   */
  lemma {:induction false} SumSplit(g: set<int> -> real, n: nat, i: int)
    requires 0 <= i < n
    ensures SubsetSum(g, Indices(n)) == SubsetSum(g, Others(n, i)) + SubsetSum(Shift(g, i), Others(n, i))
  {
    var x := n - 1;
    var init := Indices(n - 1);
    assert Indices(n)[..n - 1] == init;
    if i == x {
      OthersPastEnd(n - 1, i);
    } else {
      var o := Others(n - 1, i);
      assert Others(n, i) == o + [x];
      assert (o + [x])[..|o|] == o;
      SumSplit(g, n - 1, i);
      SumSplit(Shift(g, x), n - 1, i);
      forall S | S <= Elems(o) ensures Shift(Shift(g, x), i)(S) == Shift(Shift(g, i), x)(S) {
        assert S + {i} + {x} == S + {x} + {i};
      }
      SumExt(Shift(Shift(g, x), i), Shift(Shift(g, i), x), o);
    }
  }

  /** S |-> h(i, S) */
  function Slice(h: (int, set<int>) -> real, i: int): set<int> -> real
  {
    S => h(i, S)
  }

  /** i |-> h(i, S) */
  function Column(h: (int, set<int>) -> real, S: set<int>): int -> real
  {
    i => h(i, S)
  }

  /** i |-> the sum over subsets S of h(i, S) */
  function RowSums(h: (int, set<int>) -> real, xs: seq<int>): int -> real
  {
    i => SubsetSum(Slice(h, i), xs)
  }

  /** S |-> h(0, S) + ... + h(m - 1, S) */
  function ColumnSums(h: (int, set<int>) -> real, m: nat): set<int> -> real
  {
    S => SumTo(Column(h, S), m)
  }

  lemma {:induction false} SumToExt(f: int -> real, g: int -> real, m: nat)
    requires forall i :: 0 <= i < m ==> f(i) == g(i)
    ensures SumTo(f, m) == SumTo(g, m)
  {
    if m > 0 {
      SumToExt(f, g, m - 1);
    }
  }

  /** A sum over indices of sums over subsets is a sum over subsets of sums over indices. */
  lemma {:induction false} SumSwap(h: (int, set<int>) -> real, m: nat, xs: seq<int>)
    ensures SumTo(RowSums(h, xs), m) == SubsetSum(ColumnSums(h, m), xs)
  {
    if m == 0 {
      SumZero(ColumnSums(h, 0), xs);
    } else {
      SumSwap(h, m - 1, xs);
      SumPlus(ColumnSums(h, m - 1), Slice(h, m - 1), xs);
      forall S | S <= Elems(xs) ensures Plus(ColumnSums(h, m - 1), Slice(h, m - 1))(S) == ColumnSums(h, m)(S) {
      }
      SumExt(Plus(ColumnSums(h, m - 1), Slice(h, m - 1)), ColumnSums(h, m), xs);
    }
  }

  /** i |-> a if i is in T, else b */
  function Indicator(T: set<int>, a: real, b: real): int -> real
  {
    i => if i in T then a else b
  }

  /** The number of members of T below m. */
  function CountBelow(T: set<int>, m: nat): nat
  {
    if m == 0 then 0 else CountBelow(T, m - 1) + (if m - 1 in T then 1 else 0)
  }

  lemma {:induction false} CountBelowAgree(T: set<int>, U: set<int>, m: nat)
    requires forall x :: 0 <= x < m ==> (x in T <==> x in U)
    ensures CountBelow(T, m) == CountBelow(U, m)
  {
    if m > 0 {
      CountBelowAgree(T, U, m - 1);
    }
  }

  /** For a set of indices below m, counting below m gives its size. */
  lemma {:induction false} CountBelowCard(T: set<int>, m: nat)
    requires T <= Range(m)
    ensures CountBelow(T, m) == |T|
  {
    if m == 0 {
      assert T == {};
    } else {
      var x := m - 1;
      var T' := T - {x};
      CountBelowCard(T', m - 1);
      CountBelowAgree(T, T', m - 1);
      if x in T {
        assert T == T' + {x};
      } else {
        assert T == T';
      }
    }
  }

  /** Summing "a if i is in T, else b" over i < m. */
  lemma {:induction false} SumIndicator(T: set<int>, a: real, b: real, m: nat)
    ensures CountBelow(T, m) <= m
    ensures SumTo(Indicator(T, a, b), m) == Times(CountBelow(T, m), a) + Times(m - CountBelow(T, m), b)
  {
    if m > 0 {
      SumIndicator(T, a, b, m - 1);
    }
  }

  /** The same sum for a set of indices below m, in terms of its size. */
  lemma SumIndicatorCard(T: set<int>, a: real, b: real, m: nat)
    requires T <= Range(m)
    ensures |T| <= m
    ensures SumTo(Indicator(T, a, b), m) == Times(|T|, a) + Times(m - |T|, b)
  {
    SumIndicator(T, a, b, m);
    CountBelowCard(T, m);
  }

  /** x + x + ... + x, m times */
  function Times(m: nat, x: real): real
  {
    if m == 0 then 0.0 else Times(m - 1, x) + x
  }

  lemma {:induction false} TimesIsProduct(m: nat, x: real)
    ensures Times(m, x) == (m as real) * x
  {
    if m > 0 {
      TimesIsProduct(m - 1, x);
      assert ((m - 1) as real) * x + x == (m as real) * x;
    }
  }
}
