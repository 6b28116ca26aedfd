/** The two tuple enumerators the element taxonomy is built on (the pytools
    generators `generate_nonnegative_integer_tuples_summing_to_at_most` and
    `generate_nonnegative_integer_tuples_below`), with what they enumerate,
    how many tuples, and in which order. */
module Tuples {

  /** A node position inside a reference element, one coordinate per axis. */
  type NodeTuple = seq<int>

  // ------------------------------------------------------------ arithmetic

  function Factorial(n: nat): (r: nat)
    ensures r >= 1
  {
    if n == 0 then 1 else n * Factorial(n - 1)
  }

  /** `reduce(mul, (n + 1 + i for i in range(d)), 1)`: (n+1)(n+2)...(n+d). */
  function RisingProduct(n: nat, d: nat): nat {
    if d == 0 then 1 else RisingProduct(n, d - 1) * (n + d)
  }

  function Pow(b: nat, e: nat): nat {
    if e == 0 then 1 else b * Pow(b, e - 1)
  }

  // ------------------------------------------------------ tuple predicates

  function Sum(t: seq<int>): int {
    if t == [] then 0 else Sum(t[..|t| - 1]) + t[|t| - 1]
  }

  predicate Nonnegative(t: NodeTuple) {
    forall k :: 0 <= k < |t| ==> t[k] >= 0
  }

  /** `t` is a lattice point of the order-`n` simplex of dimension `length`. */
  predicate InSimplex(t: NodeTuple, n: nat, length: nat) {
    |t| == length && Nonnegative(t) && Sum(t) <= n
  }

  /** `t` is a lattice point of the box `{0..m-1}^length`. */
  predicate InBox(t: NodeTuple, m: nat, length: nat) {
    |t| == length && forall k :: 0 <= k < |t| ==> 0 <= t[k] < m
  }

  /** Colexicographic order: compare the last coordinates first. "The first
      coordinate varies fastest" means a list is strictly increasing in it. */
  predicate ColexLess(a: NodeTuple, b: NodeTuple)
    decreases |a|
  {
    |a| == |b| && |a| > 0 &&
    (a[|a| - 1] < b[|b| - 1] ||
     (a[|a| - 1] == b[|b| - 1] && ColexLess(a[..|a| - 1], b[..|b| - 1])))
  }

  /** Lexicographic order: compare the first coordinates first. */
  predicate LexLess(a: NodeTuple, b: NodeTuple)
    decreases |a|
  {
    |a| == |b| && |a| > 0 &&
    (a[0] < b[0] || (a[0] == b[0] && LexLess(a[1..], b[1..])))
  }

  predicate ColexSorted(ts: seq<NodeTuple>) {
    forall i, j :: 0 <= i < j < |ts| ==> ColexLess(ts[i], ts[j])
  }

  predicate LexSorted(ts: seq<NodeTuple>) {
    forall i, j :: 0 <= i < j < |ts| ==> LexLess(ts[i], ts[j])
  }

  predicate Distinct<T(==)>(s: seq<T>) {
    forall i, j :: 0 <= i < j < |s| ==> s[i] != s[j]
  }

  lemma {:induction false} ColexIrreflexive(a: NodeTuple)
    ensures !ColexLess(a, a)
  {
    if |a| > 0 {
      ColexIrreflexive(a[..|a| - 1]);
    }
  }

  lemma ColexSortedDistinct(ts: seq<NodeTuple>)
    requires ColexSorted(ts)
    ensures Distinct(ts)
  {
    forall i, j | 0 <= i < j < |ts| ensures ts[i] != ts[j] {
      if ts[i] == ts[j] {
        ColexIrreflexive(ts[i]);
      }
    }
  }

  // ------------------------------------------------- summing to at most n

  function AppendEach(ts: seq<NodeTuple>, x: int): (r: seq<NodeTuple>)
    ensures |r| == |ts|
  {
    seq(|ts|, k requires 0 <= k < |ts| => ts[k] + [x])
  }

  /** `generate_nonnegative_integer_tuples_summing_to_at_most(n, length)`:
      for i in 0..n, every shorter tuple summing to at most n - i, followed
      by i; so the last coordinate varies slowest. */
  function SummingToAtMost(n: nat, length: nat): (r: seq<NodeTuple>)
    ensures forall k :: 0 <= k < |r| ==> |r[k]| == length
    decreases length, n + 2
  {
    if length == 0 then [[]] else SummingFrom(n, length, 0)
  }

  /** The blocks of `SummingToAtMost(n, length)` whose last coordinate is
      `i` or more. */
  function SummingFrom(n: nat, length: nat, i: nat): (r: seq<NodeTuple>)
    requires 1 <= length && i <= n + 1
    ensures forall k :: 0 <= k < |r| ==> |r[k]| == length && i <= r[k][length - 1] <= n
    decreases length, n + 1 - i
  {
    if i > n then []
    else AppendEach(SummingToAtMost(n - i, length - 1), i) + SummingFrom(n, length, i + 1)
  }

  lemma {:induction false} SummingFromShift(n: nat, length: nat, i: nat, k: nat)
    requires 1 <= length && k <= i <= n + 1 && k <= n
    ensures |SummingFrom(n, length, i)| == |SummingFrom(n - k, length, i - k)|
    decreases n + 1 - i
  {
    if i <= n {
      SummingFromShift(n, length, i + 1, k);
    }
  }

  /** Pascal's rule for the tuple counts: split on whether the last
      coordinate is zero. */
  lemma SummingPascal(n: nat, length: nat)
    requires length >= 1
    ensures |SummingToAtMost(n, length)| ==
            |SummingToAtMost(n, length - 1)| + (if n == 0 then 0 else |SummingToAtMost(n - 1, length)|)
  {
    assert SummingToAtMost(n, length) == SummingFrom(n, length, 0);
    if n > 0 {
      SummingFromShift(n, length, 1, 1);
    }
  }

  lemma {:induction false} RisingShift(n: nat, d: nat)
    requires n >= 1 && d >= 1
    ensures RisingProduct(n - 1, d) == n * RisingProduct(n, d - 1)
  {
    if d > 1 {
      RisingShift(n, d - 1);
      var p, last := RisingProduct(n, d - 2), n + d - 1;
      assert RisingProduct(n - 1, d) == RisingProduct(n - 1, d - 1) * last;
      assert RisingProduct(n, d - 1) == p * last;
      assert (n * p) * last == n * (p * last);
    }
  }

  lemma CountStep(d: int, f: int, c0: int, c1: int, r: int, n: int)
    requires f * c0 == r && d * f * c1 == n * r
    ensures d * f * (c0 + c1) == r * (n + d)
  {
    calc {
      d * f * (c0 + c1);
      d * f * c0 + d * f * c1;
      d * (f * c0) + n * r;
      d * r + n * r;
      r * (n + d);
    }
  }

  /** The number of tuples, times length!, is (n+1)(n+2)...(n+length). */
  lemma {:induction false} SummingCountTimesFactorial(n: nat, length: nat)
    ensures Factorial(length) * |SummingToAtMost(n, length)| == RisingProduct(n, length)
    decreases length, n
  {
    if length > 0 {
      var d := length;
      SummingPascal(n, d);
      SummingCountTimesFactorial(n, d - 1);
      var c0 := |SummingToAtMost(n, d - 1)|;
      var f := Factorial(d - 1);
      var r := RisingProduct(n, d - 1);
      assert Factorial(d) == d * f;
      assert RisingProduct(n, d) == r * (n + d);
      if n == 0 {
        CountStep(d, f, c0, 0, r, n);
        assert |SummingToAtMost(n, d)| == c0 + 0;
      } else {
        SummingCountTimesFactorial(n - 1, d);
        RisingShift(n, d);
        var c1 := |SummingToAtMost(n - 1, d)|;
        assert Factorial(d) * c1 == n * r;
        CountStep(d, f, c0, c1, r, n);
        assert |SummingToAtMost(n, d)| == c0 + c1;
      }
    }
  }

  lemma MulAtLeast(f: int, k: int)
    requires f > 0 && k >= 1
    ensures f * k >= f
  {
    assert f * k == f + f * (k - 1);
  }

  lemma MulDiv(f: int, c: int)
    requires f > 0
    ensures f * c / f == c
  {
    var q, rem := f * c / f, f * c % f;
    assert f * c == f * q + rem && 0 <= rem < f;
    assert f * (c - q) == rem;
    if c - q >= 1 {
      MulAtLeast(f, c - q);
    }
  }

  /** The count is the closed form the simplex elements use for their node
      count, i.e. the binomial coefficient C(n + length, length). */
  lemma SummingCount(n: nat, length: nat)
    ensures |SummingToAtMost(n, length)| == RisingProduct(n, length) / Factorial(length)
  {
    SummingCountTimesFactorial(n, length);
    MulDiv(Factorial(length), |SummingToAtMost(n, length)|);
  }

  lemma SumSnoc(p: seq<int>, x: int)
    ensures Sum(p + [x]) == Sum(p) + x
  {
    assert (p + [x])[..|p|] == p;
  }

  lemma {:induction false} SummingFromMembers(n: nat, length: nat, i: nat, t: NodeTuple)
    requires 1 <= length && i <= n + 1
    ensures t in SummingFrom(n, length, i) <==>
      |t| == length && i <= t[length - 1] <= n &&
      t[..length - 1] in SummingToAtMost(n - t[length - 1], length - 1)
    decreases n + 1 - i
  {
    if i <= n {
      var block := AppendEach(SummingToAtMost(n - i, length - 1), i);
      SummingFromMembers(n, length, i + 1, t);
      if t in block {
        var k :| 0 <= k < |block| && block[k] == t;
        assert t[..length - 1] == SummingToAtMost(n - i, length - 1)[k];
      }
      if |t| == length && t[length - 1] == i && t[..length - 1] in SummingToAtMost(n - i, length - 1) {
        var p := t[..length - 1];
        var k :| 0 <= k < |SummingToAtMost(n - i, length - 1)| && SummingToAtMost(n - i, length - 1)[k] == p;
        assert t == p + [i];
        assert block[k] == t;
      }
    }
  }

  /** The enumerator yields exactly the lattice points of the simplex: the
      tuples of the given length, with non-negative entries summing to at
      most n. */
  lemma {:induction false} SummingMembers(n: nat, length: nat, t: NodeTuple)
    ensures t in SummingToAtMost(n, length) <==> InSimplex(t, n, length)
    decreases length
  {
    if length == 0 {
      assert InSimplex(t, n, length) ==> t == [];
    } else {
      SummingFromMembers(n, length, 0, t);
      if |t| == length {
        var p, x := t[..length - 1], t[length - 1];
        assert t == p + [x];
        SumSnoc(p, x);
        assert Nonnegative(t) <==> Nonnegative(p) && x >= 0 by {
          if Nonnegative(p) && x >= 0 {
            forall k | 0 <= k < |t| ensures t[k] >= 0 {
              if k < |p| { assert t[k] == p[k]; }
            }
          }
        }
        if 0 <= x <= n {
          SummingMembers(n - x, length - 1, p);
        } else if x > n && Nonnegative(p) {
          SumNonnegative(p);
        }
      }
    }
  }

  lemma {:induction false} SumNonnegative(t: NodeTuple)
    requires Nonnegative(t)
    ensures Sum(t) >= 0
  {
    if t != [] {
      SumNonnegative(t[..|t| - 1]);
    }
  }

  lemma AppendEachSorted(ts: seq<NodeTuple>, x: int)
    requires ColexSorted(ts)
    ensures ColexSorted(AppendEach(ts, x))
  {
    var r := AppendEach(ts, x);
    forall i, j | 0 <= i < j < |r| ensures ColexLess(r[i], r[j]) {
      assert r[i][..|r[i]| - 1] == ts[i];
      assert r[j][..|r[j]| - 1] == ts[j];
    }
  }

  /** Two sorted runs, each tuple of the first before each of the second,
      make one sorted run. */
  lemma ColexSortedConcat(xs: seq<NodeTuple>, ys: seq<NodeTuple>)
    requires ColexSorted(xs) && ColexSorted(ys)
    requires forall a, b :: 0 <= a < |xs| && 0 <= b < |ys| ==> ColexLess(xs[a], ys[b])
    ensures ColexSorted(xs + ys)
  {
    var all := xs + ys;
    forall a, b | 0 <= a < b < |all| ensures ColexLess(all[a], all[b]) {
      if b < |xs| {
        assert all[a] == xs[a] && all[b] == xs[b];
      } else if a >= |xs| {
        assert all[a] == ys[a - |xs|] && all[b] == ys[b - |xs|];
      } else {
        assert all[a] == xs[a] && all[b] == ys[b - |xs|];
      }
    }
  }

  lemma {:induction false} SummingFromSorted(n: nat, length: nat, i: nat)
    requires 1 <= length && i <= n + 1
    ensures ColexSorted(SummingFrom(n, length, i))
    decreases length, n + 1 - i
  {
    if i <= n {
      var block := AppendEach(SummingToAtMost(n - i, length - 1), i);
      var rest := SummingFrom(n, length, i + 1);
      SummingSorted(n - i, length - 1);
      AppendEachSorted(SummingToAtMost(n - i, length - 1), i);
      SummingFromSorted(n, length, i + 1);
      forall a, b | 0 <= a < |block| && 0 <= b < |rest| ensures ColexLess(block[a], rest[b]) {
        SummingFromMembers(n, length, i + 1, rest[b]);
        assert |block[a]| == length;
        assert block[a][length - 1] == i;
      }
      ColexSortedConcat(block, rest);
    }
  }

  /** The simplex enumeration runs with the first coordinate fastest:
      it is strictly increasing in colexicographic order (so it has no
      repeated tuple). */
  lemma {:induction false} SummingSorted(n: nat, length: nat)
    ensures ColexSorted(SummingToAtMost(n, length))
    decreases length, n + 2
  {
    if length > 0 {
      SummingFromSorted(n, length, 0);
    }
  }

  lemma {:induction false} SummingFromLine(n: nat, i: nat)
    requires i <= n + 1
    ensures |SummingFrom(n, 1, i)| == n + 1 - i
    ensures forall k :: 0 <= k < n + 1 - i ==> SummingFrom(n, 1, i)[k] == [i + k]
    decreases n + 1 - i
  {
    if i <= n {
      SummingFromLine(n, i + 1);
      var block := AppendEach(SummingToAtMost(n - i, 0), i);
      assert |block| == 1 && block[0] == [] + [i];
      assert SummingFrom(n, 1, i) == block + SummingFrom(n, 1, i + 1);
    }
  }

  /** In one dimension the enumeration is simply (0,), (1,), ..., (n,). */
  lemma SummingLine(n: nat)
    ensures SummingToAtMost(n, 1) == seq(n + 1, k requires 0 <= k <= n => [k])
  {
    SummingFromLine(n, 0);
  }

  // ----------------------------------------------------------- tuples below

  function PrependEach(x: int, ts: seq<NodeTuple>): (r: seq<NodeTuple>)
    ensures |r| == |ts|
  {
    seq(|ts|, k requires 0 <= k < |ts| => [x] + ts[k])
  }

  /** `generate_nonnegative_integer_tuples_below(m, length)`: for i in 0..m-1,
      i followed by every shorter tuple; the first coordinate varies
      slowest. */
  function Below(m: nat, length: nat): (r: seq<NodeTuple>)
    ensures forall k :: 0 <= k < |r| ==> |r[k]| == length
    decreases length, m + 1
  {
    if length == 0 then [[]] else BelowFrom(m, length, 0)
  }

  function BelowFrom(m: nat, length: nat, i: nat): (r: seq<NodeTuple>)
    requires 1 <= length && i <= m
    ensures forall k :: 0 <= k < |r| ==> |r[k]| == length && i <= r[k][0] < m
    decreases length, m - i
  {
    if i == m then [] else PrependEach(i, Below(m, length - 1)) + BelowFrom(m, length, i + 1)
  }

  lemma {:induction false} BelowFromCount(m: nat, length: nat, i: nat)
    requires 1 <= length && i <= m
    ensures |BelowFrom(m, length, i)| == (m - i) * |Below(m, length - 1)|
    decreases m - i
  {
    if i < m {
      BelowFromCount(m, length, i + 1);
    }
  }

  /** There are m^length tuples below m. */
  lemma {:induction false} BelowCount(m: nat, length: nat)
    ensures |Below(m, length)| == Pow(m, length)
  {
    if length > 0 {
      BelowFromCount(m, length, 0);
      BelowCount(m, length - 1);
    }
  }

  lemma {:induction false} BelowFromMembers(m: nat, length: nat, i: nat, t: NodeTuple)
    requires 1 <= length && i <= m
    ensures t in BelowFrom(m, length, i) <==>
      |t| == length && i <= t[0] < m && t[1..] in Below(m, length - 1)
    decreases m - i
  {
    if i < m {
      var block := PrependEach(i, Below(m, length - 1));
      BelowFromMembers(m, length, i + 1, t);
      if t in block {
        var k :| 0 <= k < |block| && block[k] == t;
        assert t[1..] == Below(m, length - 1)[k];
      }
      if |t| == length && t[0] == i && t[1..] in Below(m, length - 1) {
        var k :| 0 <= k < |Below(m, length - 1)| && Below(m, length - 1)[k] == t[1..];
        assert block[k] == [i] + t[1..] == t;
      }
    }
  }

  /** The enumerator yields exactly the points of the box {0..m-1}^length. */
  lemma {:induction false} BelowMembers(m: nat, length: nat, t: NodeTuple)
    ensures t in Below(m, length) <==> InBox(t, m, length)
    decreases length
  {
    if length > 0 {
      BelowFromMembers(m, length, 0, t);
      if |t| == length {
        BelowMembers(m, length - 1, t[1..]);
        if InBox(t[1..], m, length - 1) && 0 <= t[0] < m {
          forall k | 0 <= k < |t| ensures 0 <= t[k] < m {
            if k > 0 { assert t[k] == t[1..][k - 1]; }
          }
        }
      }
    }
  }

  /** Two sorted runs, each tuple of the first before each of the second,
      make one sorted run. */
  lemma LexSortedConcat(xs: seq<NodeTuple>, ys: seq<NodeTuple>)
    requires LexSorted(xs) && LexSorted(ys)
    requires forall a, b :: 0 <= a < |xs| && 0 <= b < |ys| ==> LexLess(xs[a], ys[b])
    ensures LexSorted(xs + ys)
  {
    var all := xs + ys;
    forall a, b | 0 <= a < b < |all| ensures LexLess(all[a], all[b]) {
      if b < |xs| {
        assert all[a] == xs[a] && all[b] == xs[b];
      } else if a >= |xs| {
        assert all[a] == ys[a - |xs|] && all[b] == ys[b - |xs|];
      } else {
        assert all[a] == xs[a] && all[b] == ys[b - |xs|];
      }
    }
  }

  lemma {:induction false} BelowFromSorted(m: nat, length: nat, i: nat)
    requires 1 <= length && i <= m
    requires LexSorted(Below(m, length - 1))
    ensures LexSorted(BelowFrom(m, length, i))
    decreases m - i
  {
    if i < m {
      var inner := Below(m, length - 1);
      var block := PrependEach(i, inner);
      var rest := BelowFrom(m, length, i + 1);
      BelowFromSorted(m, length, i + 1);
      forall a, b | 0 <= a < b < |block| ensures LexLess(block[a], block[b]) {
        assert block[a][1..] == inner[a] && block[b][1..] == inner[b];
      }
      forall a, b | 0 <= a < |block| && 0 <= b < |rest| ensures LexLess(block[a], rest[b]) {
        BelowFromMembers(m, length, i + 1, rest[b]);
      }
      LexSortedConcat(block, rest);
    }
  }

  /** The box enumeration is strictly increasing lexicographically. */
  lemma {:induction false} BelowSorted(m: nat, length: nat)
    ensures LexSorted(Below(m, length))
  {
    if length > 0 {
      BelowSorted(m, length - 1);
      BelowFromSorted(m, length, 0);
    }
  }

  // ------------------------------------------------- tensor-product tuples

  /** `tup[::-1]`. */
  function Reverse(t: NodeTuple): (r: NodeTuple)
    ensures |r| == |t|
  {
    if t == [] then [] else Reverse(t[1..]) + [t[0]]
  }

  lemma {:induction false} ReverseAt(t: NodeTuple, k: nat)
    requires k < |t|
    ensures Reverse(t)[k] == t[|t| - 1 - k]
  {
    if k < |t| - 1 {
      ReverseAt(t[1..], k);
    }
  }

  lemma {:induction false} ReverseReverse(t: NodeTuple)
    ensures Reverse(Reverse(t)) == t
  {
    forall k | 0 <= k < |t| ensures Reverse(Reverse(t))[k] == t[k] {
      ReverseAt(Reverse(t), k);
      ReverseAt(t, |t| - 1 - k);
    }
  }

  lemma {:induction false} ReverseLexColex(a: NodeTuple, b: NodeTuple)
    ensures LexLess(a, b) <==> ColexLess(Reverse(a), Reverse(b))
    decreases |a|
  {
    if |a| > 0 && |a| == |b| {
      var ra, rb := Reverse(a), Reverse(b);
      assert ra[..|ra| - 1] == Reverse(a[1..]);
      assert rb[..|rb| - 1] == Reverse(b[1..]);
      ReverseLexColex(a[1..], b[1..]);
    }
  }

  /** The tensor-product node tuples: the box enumeration with every tuple
      reversed, so that the first coordinate varies fastest. */
  function TensorProductTuples(order: nat, dim: nat): (r: seq<NodeTuple>)
    ensures |r| == |Below(order + 1, dim)|
  {
    var b := Below(order + 1, dim);
    seq(|b|, k requires 0 <= k < |b| => Reverse(b[k]))
  }

  /** There are (order+1)^dim tensor-product tuples. */
  lemma TensorProductCount(order: nat, dim: nat)
    ensures |TensorProductTuples(order, dim)| == Pow(order + 1, dim)
  {
    BelowCount(order + 1, dim);
  }

  /** The tensor-product tuples run with the first coordinate fastest:
      strictly increasing colexicographically. */
  lemma TensorProductSorted(order: nat, dim: nat)
    ensures ColexSorted(TensorProductTuples(order, dim))
  {
    var b := Below(order + 1, dim);
    var r := TensorProductTuples(order, dim);
    BelowSorted(order + 1, dim);
    forall i, j | 0 <= i < j < |r| ensures ColexLess(r[i], r[j]) {
      ReverseLexColex(b[i], b[j]);
    }
  }

  /** The tensor-product tuples are exactly the points of {0..order}^dim. */
  lemma TensorProductMembers(order: nat, dim: nat, t: NodeTuple)
    ensures t in TensorProductTuples(order, dim) <==> InBox(t, order + 1, dim)
  {
    if t in TensorProductTuples(order, dim) {
      TensorProductInBox(order, dim, t);
    }
    if InBox(t, order + 1, dim) {
      InBoxTensorProduct(order, dim, t);
    }
  }

  lemma TensorProductInBox(order: nat, dim: nat, t: NodeTuple)
    requires t in TensorProductTuples(order, dim)
    ensures InBox(t, order + 1, dim)
  {
    var b := Below(order + 1, dim);
    var r := TensorProductTuples(order, dim);
    var k :| 0 <= k < |r| && r[k] == t;
    BelowMembers(order + 1, dim, b[k]);
    forall i | 0 <= i < |t| ensures 0 <= t[i] < order + 1 {
      ReverseAt(b[k], i);
    }
  }

  lemma InBoxTensorProduct(order: nat, dim: nat, t: NodeTuple)
    requires InBox(t, order + 1, dim)
    ensures t in TensorProductTuples(order, dim)
  {
    var b := Below(order + 1, dim);
    var r := TensorProductTuples(order, dim);
    var u := Reverse(t);
    forall i | 0 <= i < |u| ensures 0 <= u[i] < order + 1 {
      ReverseAt(t, i);
    }
    BelowMembers(order + 1, dim, u);
    var k :| 0 <= k < |b| && b[k] == u;
    ReverseReverse(t);
    assert r[k] == t;
  }

}
