/** The counting passes the checks are built from: null counts, runtime-type
    tallies, distinct values with and without nulls, the frequency of the
    most common value, and repeated rows. */
module Counting {
  import opened Table

  /** How many elements of `s` satisfy `p`. */
  function Count<T>(s: seq<T>, p: T -> bool): (n: nat)
    ensures n <= |s|
  {
    if s == [] then 0 else Count(s[..|s| - 1], p) + (if p(s[|s| - 1]) then 1 else 0)
  }

  lemma {:induction false} CountAppend<T>(a: seq<T>, b: seq<T>, p: T -> bool)
    ensures Count(a + b, p) == Count(a, p) + Count(b, p)
  {
    if b == [] {
      assert a + b == a;
    } else {
      assert (a + b)[..|a + b| - 1] == a + b[..|b| - 1];
      CountAppend(a, b[..|b| - 1], p);
    }
  }

  /** No element is counted exactly when none satisfies `p`. */
  lemma {:induction false} CountNone<T>(s: seq<T>, p: T -> bool)
    ensures Count(s, p) == 0 <==> forall i | 0 <= i < |s| :: !p(s[i])
  {
    if s != [] {
      var t := s[..|s| - 1];
      CountNone(t, p);
      assert forall i | 0 <= i < |t| :: t[i] == s[i];
    }
  }

  /** Every element is counted exactly when all satisfy `p`. */
  lemma {:induction false} CountEvery<T>(s: seq<T>, p: T -> bool)
    ensures Count(s, p) == |s| <==> forall i | 0 <= i < |s| :: p(s[i])
  {
    if s != [] {
      var t := s[..|s| - 1];
      CountEvery(t, p);
      assert forall i | 0 <= i < |t| :: t[i] == s[i];
    }
  }

  /** Two predicates that no element satisfies together count at most all
      elements between them. */
  lemma {:induction false} CountDisjoint<T>(s: seq<T>, p: T -> bool, q: T -> bool)
    requires forall i | 0 <= i < |s| :: !(p(s[i]) && q(s[i]))
    ensures Count(s, p) + Count(s, q) <= |s|
  {
    if s != [] {
      var t := s[..|s| - 1];
      assert forall i | 0 <= i < |t| :: t[i] == s[i];
      CountDisjoint(t, p, q);
    }
  }

  // ---------------------------------------------------------------- nulls

  predicate IsNull(v: Value) { v.Null? }

  /** `isnull().sum()` of a column. */
  function NullCount(vs: seq<Value>): nat {
    Count(vs, IsNull)
  }

  /** The number of non-null values. */
  function NonNullCount(vs: seq<Value>): nat {
    |vs| - NullCount(vs)
  }

  lemma NullCountExtremes(vs: seq<Value>)
    ensures NullCount(vs) == 0 <==> forall i | 0 <= i < |vs| :: !vs[i].Null?
    ensures NullCount(vs) == |vs| <==> forall i | 0 <= i < |vs| :: vs[i].Null?
  {
    CountNone(vs, IsNull);
    CountEvery(vs, IsNull);
  }

  // ---------------------------------------------------- runtime-type tallies

  /** How many values have runtime type `k`. */
  function KindCount(vs: seq<Value>, k: Kind): nat {
    Count(vs, v => KindOf(v) == k)
  }

  lemma KindCountPositive(vs: seq<Value>, k: Kind)
    ensures KindCount(vs, k) > 0 <==> exists i :: 0 <= i < |vs| && KindOf(vs[i]) == k
  {
    CountNone(vs, v => KindOf(v) == k);
  }

  /** `map(type).value_counts()` on a non-category column: each runtime
      type that occurs, with how often it occurs. */
  function Tally(vs: seq<Value>): (t: map<Kind, nat>)
    ensures forall k :: k in t <==> exists i :: 0 <= i < |vs| && KindOf(vs[i]) == k
    ensures forall k | k in t :: t[k] == KindCount(vs, k) && t[k] > 0
  {
    forall k ensures KindCount(vs, k) > 0 <==> exists i :: 0 <= i < |vs| && KindOf(vs[i]) == k {
      KindCountPositive(vs, k);
    }
    map k | k in AllKinds && KindCount(vs, k) > 0 :: KindCount(vs, k)
  }

  function TallyAt(t: map<Kind, nat>, k: Kind): nat {
    if k in t then t[k] else 0
  }

  /** The sum of all entries of a tally. */
  function TallyTotal(t: map<Kind, nat>): nat {
    TallyAt(t, BoolType) + TallyAt(t, IntType)
      + TallyAt(t, FloatType) + TallyAt(t, StrType) + TallyAt(t, OtherType)
  }

  lemma {:induction false} KindCountsSum(vs: seq<Value>)
    ensures KindCount(vs, BoolType) + KindCount(vs, IntType)
          + KindCount(vs, FloatType) + KindCount(vs, StrType) + KindCount(vs, OtherType) == |vs|
  {
    if vs != [] {
      KindCountsSum(vs[..|vs| - 1]);
    }
  }

  /** Every value is tallied under exactly one runtime type, so the tallies
      add up to the number of values. */
  lemma TallySumsToLength(vs: seq<Value>)
    ensures TallyTotal(Tally(vs)) == |vs|
  {
    TallyAtIsKindCount(vs, BoolType);
    TallyAtIsKindCount(vs, IntType);
    TallyAtIsKindCount(vs, FloatType);
    TallyAtIsKindCount(vs, StrType);
    TallyAtIsKindCount(vs, OtherType);
    KindCountsSum(vs);
  }

  /** A kind missing from the tally occurs zero times. */
  lemma TallyAtIsKindCount(vs: seq<Value>, k: Kind)
    ensures TallyAt(Tally(vs), k) == KindCount(vs, k)
  {
    KindCountPositive(vs, k);
  }

  /** Two values of different runtime types occur. */
  predicate MixedKinds(vs: seq<Value>) {
    exists i, j :: 0 <= i < |vs| && 0 <= j < |vs| && KindOf(vs[i]) != KindOf(vs[j])
  }

  /** `len(types) > 1`: at least two runtime types occur. */
  lemma MixedTally(vs: seq<Value>)
    ensures |Tally(vs)| > 1 <==> MixedKinds(vs)
  {
    if MixedKinds(vs) {
      var i, j :| 0 <= i < |vs| && 0 <= j < |vs| && KindOf(vs[i]) != KindOf(vs[j]);
      TwoKindsTallied(vs, i, j);
    }
    if |Tally(vs)| > 1 {
      TwoTalliedKinds(vs);
    }
  }

  lemma TwoKindsTallied(vs: seq<Value>, i: int, j: int)
    requires 0 <= i < |vs| && 0 <= j < |vs| && KindOf(vs[i]) != KindOf(vs[j])
    ensures |Tally(vs)| > 1
  {
    var t := Tally(vs);
    assert KindOf(vs[i]) in t && KindOf(vs[j]) in t;
    TwoKeys(t, KindOf(vs[i]), KindOf(vs[j]));
  }

  lemma TwoKeys<K, V>(m: map<K, V>, a: K, b: K)
    requires a in m && b in m && a != b
    ensures |m| > 1
  {
    assert m.Keys == {a} + (m.Keys - {a});
    assert b in m.Keys - {a};
  }

  lemma TwoTalliedKinds(vs: seq<Value>)
    requires |Tally(vs)| > 1
    ensures MixedKinds(vs)
  {
    var keys := Tally(vs).Keys;
    var a :| a in keys;
    assert |keys - {a}| > 0;
    var b :| b in keys - {a};
    var i :| 0 <= i < |vs| && KindOf(vs[i]) == a;
    var j :| 0 <= j < |vs| && KindOf(vs[j]) == b;
  }

  // ------------------------------------------------------- distinct values

  predicate Dropped(v: Value, dropNull: bool) { dropNull && v.Null? }

  /** The values of `vs` up to equality; `nunique(dropna=dropNull)` is its size. */
  function DistinctKeys(vs: seq<Value>, dropNull: bool): set<Key> {
    set i | 0 <= i < |vs| && !Dropped(vs[i], dropNull) :: KeyOf(vs[i])
  }

  lemma DistinctKeysSnoc(vs: seq<Value>, dropNull: bool)
    requires vs != []
    ensures DistinctKeys(vs, dropNull)
         == DistinctKeys(vs[..|vs| - 1], dropNull)
          + (if Dropped(vs[|vs| - 1], dropNull) then {} else {KeyOf(vs[|vs| - 1])})
  {
    var t := vs[..|vs| - 1];
    assert forall i | 0 <= i < |t| :: t[i] == vs[i];
  }

  /** Never more distinct values than values kept. */
  lemma {:induction false} DistinctBound(vs: seq<Value>)
    ensures |DistinctKeys(vs, false)| <= |vs|
    ensures |DistinctKeys(vs, true)| <= NonNullCount(vs)
  {
    if vs != [] {
      DistinctBound(vs[..|vs| - 1]);
      DistinctKeysSnoc(vs, false);
      DistinctKeysSnoc(vs, true);
    }
  }

  /** Counting nulls as a value adds exactly one distinct value when a null
      is present, and none otherwise. */
  lemma DistinctWithNull(vs: seq<Value>)
    ensures |DistinctKeys(vs, false)|
         == |DistinctKeys(vs, true)| + (if NullCount(vs) > 0 then 1 else 0)
  {
    var kept := DistinctKeys(vs, true);
    var all := DistinctKeys(vs, false);
    NullCountExtremes(vs);
    assert NullKey !in kept;
    if NullCount(vs) > 0 {
      var i :| 0 <= i < |vs| && vs[i].Null?;
      assert KeyOf(vs[i]) == NullKey;
      assert all == kept + {NullKey};
    } else {
      assert all == kept;
    }
  }

  /** The distinct non-null values vanish exactly when every value is null. */
  lemma DistinctEmpty(vs: seq<Value>)
    ensures |DistinctKeys(vs, true)| == 0 <==> NullCount(vs) == |vs|
    ensures |DistinctKeys(vs, false)| == 0 <==> vs == []
  {
    NullCountExtremes(vs);
    if NullCount(vs) != |vs| {
      var i :| 0 <= i < |vs| && !vs[i].Null?;
      assert KeyOf(vs[i]) in DistinctKeys(vs, true);
    }
    if vs != [] {
      assert KeyOf(vs[0]) in DistinctKeys(vs, false);
    }
  }

  // ------------------------------------------------- most frequent value

  /** How many values equal (in Python's sense) a value of class `k`. */
  function KeyCount(vs: seq<Value>, k: Key): nat {
    Count(vs, v => KeyOf(v) == k)
  }

  /** The largest frequency in `vs` of the non-null values of `cands`. */
  function TopAmong(cands: seq<Value>, vs: seq<Value>): nat {
    if cands == [] then 0
    else
      var best := TopAmong(cands[..|cands| - 1], vs);
      var last := cands[|cands| - 1];
      if !last.Null? && KeyCount(vs, KeyOf(last)) > best then KeyCount(vs, KeyOf(last)) else best
  }

  /** The count of the most frequent non-null value (0 when there is none). */
  function TopCount(vs: seq<Value>): nat {
    TopAmong(vs, vs)
  }

  lemma {:induction false} TopAmongIsMaximum(cands: seq<Value>, vs: seq<Value>)
    ensures forall i | 0 <= i < |cands| && !cands[i].Null? :: KeyCount(vs, KeyOf(cands[i])) <= TopAmong(cands, vs)
    ensures TopAmong(cands, vs) == 0
         || exists i :: 0 <= i < |cands| && !cands[i].Null? && KeyCount(vs, KeyOf(cands[i])) == TopAmong(cands, vs)
  {
    if cands != [] {
      var t := cands[..|cands| - 1];
      TopAmongIsMaximum(t, vs);
      assert forall i | 0 <= i < |t| :: t[i] == cands[i];
    }
  }

  /** TopCount is the frequency of a most frequent non-null value, bounded
      by the number of non-null values, and 0 exactly when all are null. */
  lemma TopCountIsMaximum(vs: seq<Value>)
    ensures forall i | 0 <= i < |vs| && !vs[i].Null? :: KeyCount(vs, KeyOf(vs[i])) <= TopCount(vs)
    ensures NonNullCount(vs) > 0 ==>
              exists i :: 0 <= i < |vs| && !vs[i].Null? && KeyCount(vs, KeyOf(vs[i])) == TopCount(vs)
    ensures TopCount(vs) <= NonNullCount(vs)
    ensures TopCount(vs) == 0 <==> NonNullCount(vs) == 0
  {
    TopAmongIsMaximum(vs, vs);
    NullCountExtremes(vs);
    if NonNullCount(vs) > 0 {
      var j :| 0 <= j < |vs| && !vs[j].Null?;
      KeyCountOfValue(vs, j);
      assert KeyCount(vs, KeyOf(vs[j])) <= TopCount(vs);
    }
    if TopCount(vs) > 0 {
      var i :| 0 <= i < |vs| && !vs[i].Null? && KeyCount(vs, KeyOf(vs[i])) == TopCount(vs);
      KeyCountBound(vs, KeyOf(vs[i]));
    }
  }

  /** A value occurring in `vs` has a positive count. */
  lemma KeyCountOfValue(vs: seq<Value>, j: nat)
    requires j < |vs|
    ensures KeyCount(vs, KeyOf(vs[j])) > 0
  {
    var k := KeyOf(vs[j]);
    CountNone(vs, v => KeyOf(v) == k);
  }

  /** A non-null class is counted only among the non-null values. */
  lemma KeyCountBound(vs: seq<Value>, k: Key)
    requires k != NullKey
    ensures KeyCount(vs, k) <= NonNullCount(vs)
  {
    CountDisjoint(vs, v => KeyOf(v) == k, IsNull);
  }

  /** `value_counts(normalize=True, dropna=True).max()`, or 0 for a column
      with no non-null value. */
  function TopShare(vs: seq<Value>): real {
    if NonNullCount(vs) == 0 then 0.0 else TopCount(vs) as real / NonNullCount(vs) as real
  }

  // -------------------------------------------------------- repeated rows

  /** `duplicated().sum()` with keep='first': the entries equal to an
      earlier entry. */
  function DuplicateCount<T(==)>(rs: seq<T>): nat {
    if rs == [] then 0
    else DuplicateCount(rs[..|rs| - 1]) + (if rs[|rs| - 1] in rs[..|rs| - 1] then 1 else 0)
  }

  /** Every entry after the first occurrence of its value is a duplicate:
      the duplicates and the distinct values together make up all entries. */
  lemma {:induction false} DuplicatesAreRepeats<T>(rs: seq<T>)
    ensures DuplicateCount(rs) + |set x | x in rs| == |rs|
  {
    if rs != [] {
      var t := rs[..|rs| - 1];
      var x := rs[|rs| - 1];
      DuplicatesAreRepeats(t);
      assert rs == t + [x];
      var before, after := set y | y in t, set y | y in rs;
      assert after == before + {x};
      if x in t {
        assert x in before;
        assert after == before;
      } else {
        assert x !in before;
      }
    }
  }
}
