/** Finite sums of real-valued functions over sets, and the algebra of them that
    double-entry bookkeeping needs. */
module Sums {
  import opened Sets

  type Summation = (set<int>, int -> real) -> real

  ghost predicate IsSummation(sum: Summation) {
    && (forall f: int -> real :: sum({}, f) == 0.0)
    && (forall s: set<int>, f: int -> real, x {:trigger sum(s - {x}, f)} ::
          x in s ==> sum(s, f) == f(x) + sum(s - {x}, f))
  }

  /** The sum of `f` over `s`: the function that takes the elements one at a time, in any order. */
  ghost function Sum(s: set<int>, f: int -> real): real {
    FoldIsSummation();
    var sum: Summation :| IsSummation(sum);
    sum(s, f)
  }

  /** The sum of the values of a map, by repeated choice. */
  ghost function MapSum<K>(m: map<K, real>): real {
    if m == map[] then 0.0
    else
      var k :| k in m;
      m[k] + MapSum(m - {k})
  }

  /** The order of choice does not matter. */
  lemma {:induction false} MapSumTake<K>(m: map<K, real>, x: K)
    requires x in m
    ensures MapSum(m) == m[x] + MapSum(m - {x})
    decreases |m|
  {
    var k :| k in m && MapSum(m) == m[k] + MapSum(m - {k});
    if k != x {
      assert |m - {k}| < |m| && |m - {x}| < |m|;
      MapSumTake(m - {k}, x);
      MapSumTake(m - {x}, k);
      assert m - {k} - {x} == m - {x} - {k};
    }
  }

  /** A sum over a set of numbers; it shows that a summation exists. */
  ghost function Fold(s: set<int>, f: int -> real): real {
    MapSum(map x | x in s :: f(x))
  }

  lemma FoldTake(s: set<int>, f: int -> real, x: int)
    requires x in s
    ensures Fold(s, f) == f(x) + Fold(s - {x}, f)
  {
    var m, m' := map y | y in s :: f(y), map y | y in s - {x} :: f(y);
    MapSumTake(m, x);
    SameMap(m - {x}, m');
  }

  lemma FoldIsSummation()
    ensures exists sum: Summation :: IsSummation(sum)
  {
    var fold: Summation := (s: set<int>, f: int -> real) => Fold(s, f);
    forall s: set<int>, f: int -> real, x | x in s
      ensures fold(s, f) == f(x) + fold(s - {x}, f)
    {
      FoldTake(s, f, x);
    }
    assert IsSummation(fold);
  }

  lemma SumEmpty(f: int -> real)
    ensures Sum({}, f) == 0.0
  {
  }

  lemma SumTake(s: set<int>, f: int -> real, x: int)
    requires x in s
    ensures Sum(s, f) == f(x) + Sum(s - {x}, f)
  {
  }

  lemma SumSingle(f: int -> real, x: int)
    ensures Sum({x}, f) == f(x)
  {
    SumTake({x}, f, x);
    assert {x} - {x} == {};
    SumEmpty(f);
  }

  lemma SumInsert(s: set<int>, f: int -> real, x: int)
    requires x !in s
    ensures Sum(s + {x}, f) == Sum(s, f) + f(x)
  {
    SumTake(s + {x}, f, x);
    assert s + {x} - {x} == s;
  }

  /** There is only one summation. */
  lemma {:induction false} SumIsFold(s: set<int>, f: int -> real)
    ensures Sum(s, f) == Fold(s, f)
  {
    if s != {} {
      NonEmpty(s);
      var x :| x in s;
      SumTake(s, f, x);
      FoldTake(s, f, x);
      SumIsFold(s - {x}, f);
    }
  }

  lemma {:induction false} SumCongruent(s: set<int>, f: int -> real, g: int -> real)
    requires forall x <- s :: f(x) == g(x)
    ensures Sum(s, f) == Sum(s, g)
  {
    if s != {} {
      NonEmpty(s);
      var x :| x in s;
      SumTake(s, f, x);
      SumTake(s, g, x);
      SumCongruent(s - {x}, f, g);
    }
  }

  lemma {:induction false} SumPlus(s: set<int>, f: int -> real, g: int -> real, h: int -> real)
    requires forall x <- s :: h(x) == f(x) + g(x)
    ensures Sum(s, h) == Sum(s, f) + Sum(s, g)
  {
    if s != {} {
      NonEmpty(s);
      var x :| x in s;
      SumTake(s, f, x);
      SumTake(s, g, x);
      SumTake(s, h, x);
      SumPlus(s - {x}, f, g, h);
    }
  }

  lemma {:induction false} SumNegate(s: set<int>, f: int -> real, h: int -> real)
    requires forall x <- s :: h(x) == -f(x)
    ensures Sum(s, h) == -Sum(s, f)
  {
    if s != {} {
      NonEmpty(s);
      var x :| x in s;
      SumTake(s, f, x);
      SumTake(s, h, x);
      SumNegate(s - {x}, f, h);
    }
  }

  lemma {:induction false} SumScale(s: set<int>, f: int -> real, c: real, h: int -> real)
    requires forall x <- s :: h(x) == c * f(x)
    ensures Sum(s, h) == c * Sum(s, f)
  {
    if s != {} {
      NonEmpty(s);
      var x :| x in s;
      SumTake(s, f, x);
      SumTake(s, h, x);
      SumScale(s - {x}, f, c, h);
    }
  }

  lemma {:induction false} SumLessEqual(s: set<int>, f: int -> real, g: int -> real)
    requires forall x <- s :: f(x) <= g(x)
    ensures Sum(s, f) <= Sum(s, g)
  {
    if s != {} {
      NonEmpty(s);
      var x :| x in s;
      SumTake(s, f, x);
      SumTake(s, g, x);
      SumLessEqual(s - {x}, f, g);
    }
  }

  lemma {:induction false} SumZero(s: set<int>, f: int -> real)
    requires forall x <- s :: f(x) == 0.0
    ensures Sum(s, f) == 0.0
  {
    if s != {} {
      NonEmpty(s);
      var x :| x in s;
      SumTake(s, f, x);
      SumZero(s - {x}, f);
    }
  }

  lemma {:induction false} SumUnion(a: set<int>, b: set<int>, f: int -> real)
    requires a !! b
    ensures Sum(a + b, f) == Sum(a, f) + Sum(b, f)
  {
    if a == {} {
      assert a + b == b;
    } else {
      NonEmpty(a);
      var x :| x in a;
      SumTake(a, f, x);
      SumTake(a + b, f, x);
      SumUnion(a - {x}, b, f);
      assert a + b - {x} == (a - {x}) + b;
    }
  }

  /** A sum over `s` is the sum over any part of `s` outside of which `f` vanishes. */
  lemma SumSupport(s: set<int>, t: set<int>, f: int -> real)
    requires t <= s
    requires forall x <- s :: x !in t ==> f(x) == 0.0
    ensures Sum(s, f) == Sum(t, f)
  {
    SumUnion(t, s - t, f);
    assert t + (s - t) == s;
    SumZero(s - t, f);
  }

  ghost function Zero(): int -> real {
    _ => 0.0
  }

  /** Non-negative terms that add up to zero are all zero. */
  lemma SumOfNonNegativeIsZero(s: set<int>, f: int -> real, x: int)
    requires forall y <- s :: f(y) >= 0.0
    requires Sum(s, f) == 0.0
    requires x in s
    ensures f(x) == 0.0
  {
    SumTake(s, f, x);
    SumLessEqual(s - {x}, Zero(), f);
    SumZero(s - {x}, Zero());
  }

  ghost function Row(f: (int, int) -> real, x: int): int -> real
  {
    y => f(x, y)
  }

  ghost function Column(f: (int, int) -> real, y: int): int -> real
  {
    x => f(x, y)
  }

  ghost function RowSums(f: (int, int) -> real, b: set<int>): int -> real
  {
    x => Sum(b, Row(f, x))
  }

  ghost function ColumnSums(f: (int, int) -> real, a: set<int>): int -> real
  {
    y => Sum(a, Column(f, y))
  }

  /** Summing a finite matrix by rows or by columns gives the same total. */
  lemma {:induction false} SumSwap(a: set<int>, b: set<int>, f: (int, int) -> real)
    ensures Sum(a, RowSums(f, b)) == Sum(b, ColumnSums(f, a))
  {
    if a == {} {
      SumZero(b, ColumnSums(f, a));
    } else {
      NonEmpty(a);
      var x :| x in a;
      SumTake(a, RowSums(f, b), x);
      SumSwap(a - {x}, b, f);
      forall y <- b
        ensures ColumnSums(f, a)(y) == Row(f, x)(y) + ColumnSums(f, a - {x})(y)
      {
        SumTake(a, Column(f, y), x);
      }
      SumPlus(b, Row(f, x), ColumnSums(f, a - {x}), ColumnSums(f, a));
    }
  }

  /** The row sums of an antisymmetric matrix add up to zero. */
  lemma SumAntisymmetric(s: set<int>, f: (int, int) -> real)
    requires forall x <- s, y <- s :: f(x, y) == -f(y, x)
    ensures Sum(s, RowSums(f, s)) == 0.0
  {
    SumSwap(s, s, f);
    forall x <- s
      ensures ColumnSums(f, s)(x) == -RowSums(f, s)(x)
    {
      SumNegate(s, Row(f, x), Column(f, x));
    }
    SumNegate(s, RowSums(f, s), ColumnSums(f, s));
  }

  /** Two columns that move together have equal sums exactly when their partners do. */
  lemma SumsMoveTogether(s: set<int>, f: int -> real, g: int -> real, f': int -> real, g': int -> real)
    requires forall x <- s :: f'(x) - g'(x) == f(x) - g(x)
    ensures Sum(s, f') - Sum(s, g') == Sum(s, f) - Sum(s, g)
  {
    var d: int -> real := x => f(x) - g(x);
    SumPlus(s, d, g, f);
    SumPlus(s, d, g', f');
  }
}
