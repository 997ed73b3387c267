/** Quartiles by linear interpolation between order statistics (the R-7
    rule, NumPy's and pandas' default) and the IQR outlier count. */
module Quartiles {
  import opened Table
  import opened Counting

  predicate Sorted(xs: seq<real>) {
    forall i, j | 0 <= i < j < |xs| :: xs[i] <= xs[j]
  }

  function Insert(x: real, xs: seq<real>): (r: seq<real>)
    requires Sorted(xs)
    ensures Sorted(r)
    ensures multiset(r) == multiset(xs) + multiset{x}
  {
    if xs == [] then [x]
    else if x <= xs[0] then [x] + xs
    else
      var rest := Insert(x, xs[1..]);
      InsertBehindHead(x, xs, rest);
      [xs[0]] + rest
  }

  /** Putting the head back in front of the tail with `x` inserted. */
  lemma InsertBehindHead(x: real, xs: seq<real>, rest: seq<real>)
    requires Sorted(xs) && xs != [] && xs[0] < x
    requires Sorted(rest) && multiset(rest) == multiset(xs[1..]) + multiset{x}
    ensures Sorted([xs[0]] + rest)
    ensures multiset([xs[0]] + rest) == multiset(xs) + multiset{x}
  {
    assert xs == [xs[0]] + xs[1..];
    forall k | 0 <= k < |rest|
      ensures xs[0] <= rest[k]
    {
      HeadBelowRest(x, xs, rest, k);
    }
  }

  lemma HeadBelowRest(x: real, xs: seq<real>, rest: seq<real>, k: int)
    requires Sorted(xs) && xs != [] && xs[0] < x
    requires multiset(rest) == multiset(xs[1..]) + multiset{x}
    requires 0 <= k < |rest|
    ensures xs[0] <= rest[k]
  {
    assert rest[k] in multiset(rest);
    if rest[k] != x {
      var tail := xs[1..];
      assert rest[k] in multiset(tail);
      var j :| 0 <= j < |tail| && tail[j] == rest[k];
      assert tail[j] == xs[j + 1];
    }
  }

  /** The values in ascending order. */
  function Sort(xs: seq<real>): (r: seq<real>)
    ensures Sorted(r)
    ensures multiset(r) == multiset(xs)
  {
    if xs == [] then []
    else
      assert xs == xs[..|xs| - 1] + [xs[|xs| - 1]];
      Insert(xs[|xs| - 1], Sort(xs[..|xs| - 1]))
  }

  lemma SortedHeadIsLeast(a: seq<real>, x: real)
    requires Sorted(a) && x in a
    ensures a[0] <= x
  {
    var i :| 0 <= i < |a| && a[i] == x;
  }
  lemma SharedElement(a: seq<real>, b: seq<real>, x: real)
    requires multiset(a) == multiset(b) && x in a
    ensures x in b
  {
    assert x in multiset(a);
  }
  lemma SameHead(a: seq<real>, b: seq<real>)
    requires Sorted(a) && Sorted(b) && multiset(a) == multiset(b) && a != []
    ensures b != [] && a[0] == b[0]
  {
    SharedElement(a, b, a[0]);
    SharedElement(b, a, b[0]);
    SortedHeadIsLeast(b, a[0]);
    SortedHeadIsLeast(a, b[0]);
  }
  lemma TailMultiset(a: seq<real>)
    requires a != []
    ensures multiset(a[1..]) == multiset(a) - multiset{a[0]}
  {
    assert a == [a[0]] + a[1..];
  }
  lemma SortedTail(a: seq<real>)
    requires Sorted(a) && a != []
    ensures Sorted(a[1..])
  {
  }
  /** A sorted sequence is determined by its multiset of values. */
  lemma {:induction false} SortedUnique(a: seq<real>, b: seq<real>)
    requires Sorted(a) && Sorted(b) && multiset(a) == multiset(b)
    ensures a == b
  {
    if a == [] {
      assert |b| == |multiset(b)| == 0;
    } else {
      SameHead(a, b);
      TailMultiset(a);
      TailMultiset(b);
      SortedTail(a);
      SortedTail(b);
      SortedUnique(a[1..], b[1..]);
      assert a == [a[0]] + a[1..];
      assert b == [b[0]] + b[1..];
    }
  }

  /** Sorting depends only on the multiset of values. */
  lemma SortCanonical(xs: seq<real>, ys: seq<real>)
    requires multiset(xs) == multiset(ys)
    ensures Sort(xs) == Sort(ys)
  {
    SortedUnique(Sort(xs), Sort(ys));
  }

  /** Sorting leaves a sorted sequence as it is. */
  lemma SortOfSorted(xs: seq<real>)
    requires Sorted(xs)
    ensures Sort(xs) == xs
  {
    SortedUnique(Sort(xs), xs);
  }

  /** Linear interpolation a + (b - a) * quarters / 4 between neighbouring
      order statistics, written out for each of the four possible fractions. */
  function Interpolate(a: real, b: real, quarters: nat): (r: real)
    requires quarters < 4
    ensures a <= b ==> a <= r <= b
  {
    if quarters == 0 then a
    else if quarters == 1 then (3.0 * a + b) / 4.0
    else if quarters == 2 then (a + b) / 2.0
    else (a + 3.0 * b) / 4.0
  }

  /** The case split agrees with the interpolation formula. */
  lemma InterpolateFormula(a: real, b: real, quarters: nat)
    requires quarters < 4
    ensures Interpolate(a, b, quarters) == a + (quarters as real / 4.0) * (b - a)
  {
  }

  /** On an ordered pair, a larger fraction never gives a smaller value. */
  lemma InterpolateMonotone(a: real, b: real, q1: nat, q2: nat)
    requires a <= b && q1 <= q2 < 4
    ensures Interpolate(a, b, q1) <= Interpolate(a, b, q2)
  {
  }

  /** The quantile of the sorted, non-empty `xs` whose position, counted in
      quarters of an index, is `pos`: the order statistic at index pos / 4,
      interpolated linearly towards the next one by (pos % 4) / 4. At
      probability p the position is h = (|xs| - 1) * p, so pos = 4 * h. */
  function Quantile(xs: seq<real>, pos: nat): (q: real)
    requires Sorted(xs) && xs != [] && pos <= 4 * (|xs| - 1)
    ensures xs[0] <= q <= xs[|xs| - 1]
    ensures xs[pos / 4] <= q
  {
    var lo := pos / 4;
    if lo + 1 < |xs| then
      assert xs[0] <= xs[lo] <= xs[lo + 1] <= xs[|xs| - 1];
      Interpolate(xs[lo], xs[lo + 1], pos % 4)
    else
      xs[lo]
  }

  /** First quartile: p = 1/4, so 4 * h = |xs| - 1. */
  function Q1(s: seq<real>): real requires Sorted(s) && s != [] { Quantile(s, |s| - 1) }

  /** Third quartile: p = 3/4, so 4 * h = 3 * (|xs| - 1). */
  function Q3(s: seq<real>): real requires Sorted(s) && s != [] { Quantile(s, 3 * (|s| - 1)) }

  /** A quantile at a lower position never exceeds one at a higher position. */
  lemma QuantileMonotone(xs: seq<real>, p1: nat, p2: nat)
    requires Sorted(xs) && xs != [] && p1 <= p2 <= 4 * (|xs| - 1)
    ensures Quantile(xs, p1) <= Quantile(xs, p2)
  {
    var lo1, lo2 := p1 / 4, p2 / 4;
    if lo1 < lo2 {
      assert xs[lo1] <= xs[lo1 + 1] <= xs[lo2];
      assert Quantile(xs, p1) <= xs[lo1 + 1];
    } else if lo1 + 1 < |xs| {
      InterpolateMonotone(xs[lo1], xs[lo1 + 1], p1 % 4, p2 % 4);
    }
  }

  /** The lower and upper IQR fences of a sorted, non-empty sample. */
  function Fences(s: seq<real>): (f: (real, real))
    requires Sorted(s) && s != []
    ensures f.0 <= Q1(s) <= Q3(s) <= f.1
  {
    QuantileMonotone(s, |s| - 1, 3 * (|s| - 1));
    var iqr := Q3(s) - Q1(s);
    (Q1(s) - 1.5 * iqr, Q3(s) + 1.5 * iqr)
  }

  /** The non-null values of a column that compare as numbers. */
  function Numbers(vs: seq<Value>): (xs: seq<real>)
    ensures |xs| <= NonNullCount(vs)
  {
    if vs == [] then []
    else
      var rest := Numbers(vs[..|vs| - 1]);
      var last := vs[|vs| - 1];
      assert NullCount(vs) == NullCount(vs[..|vs| - 1]) + (if last.Null? then 1 else 0);
      if KeyOf(last).NumKey? then rest + [KeyOf(last).x] else rest
  }

  predicate Outside(x: real, f: (real, real)) { x < f.0 || x > f.1 }

  /** The test "strictly outside the fences `f`". */
  function OutsideOf(f: (real, real)): real -> bool {
    x => Outside(x, f)
  }

  /** The values strictly below the lower fence or strictly above the upper
      fence; nulls take no part, and a column without numbers has none. */
  function OutlierCount(vs: seq<Value>): nat {
    var xs := Numbers(vs);
    if xs == [] then 0
    else
      var f := Fences(Sort(xs));
      Count(xs, OutsideOf(f))
  }

  /** An outlier is a non-null value, so there are at most as many outliers
      as non-null values. */
  lemma OutliersBound(vs: seq<Value>)
    ensures OutlierCount(vs) <= |Numbers(vs)| <= NonNullCount(vs)
  {
  }

  /** The values between the quartiles are never outliers. */
  lemma InsideQuartilesNotOutside(s: seq<real>, x: real)
    requires Sorted(s) && s != [] && Q1(s) <= x <= Q3(s)
    ensures !Outside(x, Fences(s))
  {
  }

  /** Taking out the element at `j` from a sequence removes one `b[j]`... */
  lemma RemoveAtMultiset<T>(b: seq<T>, j: int)
    requires 0 <= j < |b|
    ensures multiset(b) == multiset(b[..j] + b[j + 1..]) + multiset{b[j]}
  {
    var l, r := b[..j], b[j + 1..];
    assert b == l + [b[j]] + r;
  }

  /** ... and counts it once if it satisfies `p`. */
  lemma {:induction false} RemoveAtCount<T>(b: seq<T>, j: int, p: T -> bool)
    requires 0 <= j < |b|
    ensures Count(b, p) == Count(b[..j] + b[j + 1..], p) + (if p(b[j]) then 1 else 0)
  {
    var front := b[..|b| - 1];
    if j == |b| - 1 {
      assert b[..j] + b[j + 1..] == front;
    } else {
      RemoveAtCount(front, j, p);
      assert b[..j] + b[j + 1..] == (front[..j] + front[j + 1..]) + [b[|b| - 1]];
      assert front[j] == b[j];
    }
  }

  /** Taking out the last element. */
  lemma RemoveLast<T>(a: seq<T>)
    requires a != []
    ensures multiset(a) == multiset(a[..|a| - 1]) + multiset{a[|a| - 1]}
  {
    assert a == a[..|a| - 1] + [a[|a| - 1]];
  }

  lemma Cancel<T>(m: multiset<T>, n: multiset<T>, x: T)
    requires m + multiset{x} == n + multiset{x}
    ensures m == n
  {
    forall y ensures m[y] == n[y] {
      assert (m + multiset{x})[y] == (n + multiset{x})[y];
    }
  }

  /** Counting is blind to order. */
  lemma {:induction false} CountPermutation<T>(a: seq<T>, b: seq<T>, p: T -> bool)
    requires multiset(a) == multiset(b)
    ensures Count(a, p) == Count(b, p)
  {
    if a != [] {
      var x := a[|a| - 1];
      assert x in multiset(b);
      var j :| 0 <= j < |b| && b[j] == x;
      RemoveLast(a);
      RemoveAtMultiset(b, j);
      RemoveAtCount(b, j, p);
      Cancel(multiset(a[..|a| - 1]), multiset(b[..j] + b[j + 1..]), x);
      CountPermutation(a[..|a| - 1], b[..j] + b[j + 1..], p);
    }
  }

  /** A number occurs in the numbers of a column as often as the column
      holds a value equal to it. */
  lemma {:induction false} NumbersMultiplicity(vs: seq<Value>, x: real)
    ensures multiset(Numbers(vs))[x] == KeyCount(vs, NumKey(x))
  {
    if vs != [] {
      NumbersMultiplicity(vs[..|vs| - 1], x);
    }
  }

  /** Reordering a column's values reorders its numbers. */
  lemma NumbersPermutation(vs: seq<Value>, ws: seq<Value>)
    requires multiset(vs) == multiset(ws)
    ensures multiset(Numbers(vs)) == multiset(Numbers(ws))
  {
    forall x ensures multiset(Numbers(vs))[x] == multiset(Numbers(ws))[x] {
      NumbersMultiplicity(vs, x);
      NumbersMultiplicity(ws, x);
      CountPermutation(vs, ws, v => KeyOf(v) == NumKey(x));
    }
  }

  /** The row order of a column does not change its outlier count. */
  lemma OutliersIgnoreReordering(vs: seq<Value>, ws: seq<Value>)
    requires multiset(vs) == multiset(ws)
    ensures OutlierCount(vs) == OutlierCount(ws)
  {
    NumbersPermutation(vs, ws);
    OutliersIgnoreOrder(vs, ws);
  }

  /** The outlier count depends only on the multiset of numeric values. */
  lemma OutliersIgnoreOrder(vs: seq<Value>, ws: seq<Value>)
    requires multiset(Numbers(vs)) == multiset(Numbers(ws))
    ensures OutlierCount(vs) == OutlierCount(ws)
  {
    var xs, ys := Numbers(vs), Numbers(ws);
    if xs != [] {
      assert |ys| == |multiset(ys)| == |multiset(xs)| == |xs|;
      SortCanonical(xs, ys);
      var f := Fences(Sort(xs));
      CountPermutation(xs, ys, OutsideOf(f));
    } else {
      assert |ys| == |multiset(ys)| == 0;
    }
  }
}
