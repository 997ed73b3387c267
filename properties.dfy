/** What each check of the detector reports, stated column by column in
    terms of the values, together with worked examples. */
module DetectorProperties {
  import opened Table
  import opened Counting
  import opened Quartiles
  import opened Detector

  // ------------------------------------------------------ missing values

  /** missing_values maps exactly the columns holding a null to their
      null count; it names no other key. */
  lemma MissingValuesExact(cols: seq<Column>)
    requires UniqueNames(cols)
    ensures forall n | n in MissingValues(cols) :: exists i :: 0 <= i < |cols| && cols[i].name == n
    ensures forall i | 0 <= i < |cols| ::
              cols[i].name in MissingValues(cols) <==> exists j :: 0 <= j < |cols[i].values| && cols[i].values[j].Null?
    ensures forall i | 0 <= i < |cols| && cols[i].name in MissingValues(cols) ::
              0 < MissingValues(cols)[cols[i].name] == NullCount(cols[i].values) <= |cols[i].values|
  {
    KeyedMembers(cols, HasNulls, NullsOf);
    forall i | 0 <= i < |cols| {
      NullCountExtremes(cols[i].values);
    }
  }

  /** high_missing_pct_columns holds exactly the columns where nulls are
      more than half of the values (2 * nulls > rows). */
  lemma HighMissingExact(cols: seq<Column>)
    requires UniqueNames(cols)
    ensures forall n | n in HighMissingColumns(cols) :: exists i :: 0 <= i < |cols| && cols[i].name == n
    ensures forall i | 0 <= i < |cols| ::
              cols[i].name in HighMissingColumns(cols) <==> 2 * NullCount(cols[i].values) > |cols[i].values|
  {
    SelectMembers(cols, IsHighMissing);
    SelectByColumn(cols, IsHighMissing);
    forall i | 0 <= i < |cols| {
      MeanAboveHalf(NullCount(cols[i].values), |cols[i].values|);
    }
  }

  lemma MeanAboveHalf(k: nat, n: nat)
    requires k <= n
    ensures (n > 0 && k as real / n as real > 0.5) <==> 2 * k > n
  {
    if n > 0 {
      ScaledComparison(k as real, n as real, 0.5);
    }
  }

  /** For a positive denominator, a quotient exceeds `c` exactly when the
      numerator exceeds `c` times the denominator. */
  lemma ScaledComparison(k: real, n: real, c: real)
    requires n > 0.0
    ensures k / n > c <==> k > c * n
  {
    var r := k / n;
    assert r * n == k;
    assert (r - c) * n == k - c * n;
    if r > c {
      MulPositive(r - c, n);
    } else if k > c * n {
      MulPositive(c - r, n);
    }
  }

  lemma MulPositive(x: real, y: real)
    requires x > 0.0 && y > 0.0
    ensures x * y > 0.0
  {
  }

  // ------------------------------------------------------- duplicate rows

  /** duplicate_rows is the row count less the number of distinct rows,
      and 0 for a frame without columns. */
  lemma DuplicateRowsExact(ds: Dataset)
    requires ds.Valid()
    ensures ds.columns != [] ==> DuplicateRows(ds) == ds.rows - |set r | r in Rows(ds)|
    ensures ds.columns == [] ==> DuplicateRows(ds) == 0
  {
    DuplicatesAreRepeats(Rows(ds));
  }

  // -------------------------------------------------------- type tallies

  /** type_inconsistencies holds exactly the columns in which two runtime
      types occur, each with a tally of every type that occurs; the tally
      adds up to the number of values. */
  lemma TypeInconsistenciesExact(cols: seq<Column>)
    requires UniqueNames(cols)
    ensures forall n | n in TypeInconsistencies(cols) :: exists i :: 0 <= i < |cols| && cols[i].name == n
    ensures forall i | 0 <= i < |cols| :: var vs := cols[i].values;
              cols[i].name in TypeInconsistencies(cols) <==> MixedKinds(vs)
    ensures forall i | 0 <= i < |cols| && cols[i].name in TypeInconsistencies(cols) ::
              var t := TypeInconsistencies(cols)[cols[i].name];
              t == Tally(cols[i].values) && TallyTotal(t) == |cols[i].values|
  {
    KeyedMembers(cols, HasMixedTypes, TypesOf);
    forall i | 0 <= i < |cols|
      ensures HasMixedTypes(cols[i]) <==> MixedKinds(cols[i].values)
      ensures TallyTotal(TypesOf(cols[i])) == |cols[i].values|
    {
      MixedTally(cols[i].values);
      TallySumsToLength(cols[i].values);
    }
  }

  /** A missing cell is a NaN, whose runtime type is float: a float column
      with gaps is not inconsistent, but with a text value added it is. */
  lemma GapsInFloatsAndText(c: Column, j: nat)
    requires forall k | 0 <= k < |c.values| :: c.values[k].Float? || c.values[k].Null?
    requires j < |c.values| && c.values[j].Null?
    ensures !HasMixedTypes(c)
    ensures forall s :: HasMixedTypes(Column(c.name, ObjectDType, c.values + [Text(s)]))
  {
    MixedTally(c.values);
    forall s ensures HasMixedTypes(Column(c.name, ObjectDType, c.values + [Text(s)])) {
      var ws := c.values + [Text(s)];
      MixedTally(ws);
      assert KindOf(ws[j]) != KindOf(ws[|c.values|]);
    }
  }

  /** mixed_type_object_columns is type_inconsistencies restricted to the
      object columns, with the same tallies. */
  lemma MixedTypesRestrictTypeInconsistencies(cols: seq<Column>)
    requires UniqueNames(cols)
    ensures forall n | n in MixedTypeObjectColumns(cols) ::
              n in TypeInconsistencies(cols) && MixedTypeObjectColumns(cols)[n] == TypeInconsistencies(cols)[n]
    ensures forall i | 0 <= i < |cols| ::
              cols[i].name in MixedTypeObjectColumns(cols) <==>
              cols[i].dtype == ObjectDType && cols[i].name in TypeInconsistencies(cols)
  {
    KeyedMembers(cols, HasMixedTypes, TypesOf);
    KeyedMembers(cols, IsMixedObject, TypesOf);
  }

  // ------------------------------------------------------------ outliers

  /** outliers keys exactly the numeric columns with at least one value
      outside the IQR fences, with that count, which never exceeds the
      number of non-null values. */
  lemma OutliersExact(cols: seq<Column>)
    requires UniqueNames(cols)
    ensures forall n | n in Outliers(cols) :: exists i :: 0 <= i < |cols| && cols[i].name == n && cols[i].dtype == NumberDType
    ensures forall i | 0 <= i < |cols| ::
              cols[i].name in Outliers(cols) <==> cols[i].dtype == NumberDType && OutlierCount(cols[i].values) > 0
    ensures forall i | 0 <= i < |cols| && cols[i].name in Outliers(cols) ::
              Outliers(cols)[cols[i].name] == OutlierCount(cols[i].values) <= NonNullCount(cols[i].values)
  {
    KeyedMembers(cols, HasOutliers, OutliersOf);
  }

  /** The worked example: in 1, 2, 3, 4, 5, 100 the quartiles are 2.25 and
      4.75, the fences -1.5 and 8.5, and 100 is the one outlier. */
  lemma OutlierExample(vs: seq<Value>)
    requires vs == [Int(1), Int(2), Int(3), Int(4), Int(5), Int(100)]
    ensures Numbers(vs) != [] && Sort(Numbers(vs)) == [1.0, 2.0, 3.0, 4.0, 5.0, 100.0]
    ensures Q1(Sort(Numbers(vs))) == 2.25 && Q3(Sort(Numbers(vs))) == 4.75
    ensures Fences(Sort(Numbers(vs))) == (-1.5, 8.5)
    ensures OutlierCount(vs) == 1
  {
    var xs := Numbers(vs);
    ExampleNumbers(vs);
    ExampleFences(xs);
    SortOfSorted(xs);
    ExampleCount(xs, Fences(xs));
  }

  lemma ExampleCount(xs: seq<real>, f: (real, real))
    requires xs == [1.0, 2.0, 3.0, 4.0, 5.0, 100.0] && f == (-1.5, 8.5)
    ensures Count(xs, OutsideOf(f)) == 1
  {
    var p := OutsideOf(f);
    var inner, last := xs[..5], xs[5..];
    assert xs == inner + last;
    assert inner == [1.0, 2.0, 3.0, 4.0, 5.0] && last == [100.0];
    CountNone(inner, p);
    CountAppend(inner, last, p);
    assert last[..0] == [];
  }

  lemma ExampleFences(xs: seq<real>)
    requires xs == [1.0, 2.0, 3.0, 4.0, 5.0, 100.0]
    ensures Sorted(xs) && Q1(xs) == 2.25 && Q3(xs) == 4.75 && Fences(xs) == (-1.5, 8.5)
  {
    assert Q1(xs) == Quantile(xs, 5) == Interpolate(2.0, 3.0, 1);
    assert Q3(xs) == Quantile(xs, 15) == Interpolate(4.0, 5.0, 3);
  }

  lemma NumbersSnoc(a: seq<Value>, i: int)
    ensures Numbers(a + [Int(i)]) == Numbers(a) + [i as real]
  {
    assert (a + [Int(i)])[..|a|] == a;
  }

  lemma ExampleNumbers(vs: seq<Value>)
    requires vs == [Int(1), Int(2), Int(3), Int(4), Int(5), Int(100)]
    ensures Numbers(vs) == [1.0, 2.0, 3.0, 4.0, 5.0, 100.0]
  {
    var a0: seq<Value> := [];
    NumbersSnoc(a0, 1);
    var a1 := a0 + [Int(1)];
    NumbersSnoc(a1, 2);
    var a2 := a1 + [Int(2)];
    NumbersSnoc(a2, 3);
    var a3 := a2 + [Int(3)];
    NumbersSnoc(a3, 4);
    var a4 := a3 + [Int(4)];
    NumbersSnoc(a4, 5);
    var a5 := a4 + [Int(5)];
    NumbersSnoc(a5, 100);
    assert vs == a5 + [Int(100)];
  }

  // ------------------------------------------- distinct values and nulls

  /** Exactly one distinct non-null value: some value is non-null and every
      non-null value equals it. */
  ghost predicate OneValue(vs: seq<Value>) {
    exists j :: 0 <= j < |vs| && !vs[j].Null? &&
      forall k | 0 <= k < |vs| && !vs[k].Null? :: KeyOf(vs[k]) == KeyOf(vs[j])
  }

  lemma SingleDistinct(vs: seq<Value>)
    ensures |DistinctKeys(vs, true)| == 1 <==> OneValue(vs)
  {
    var s := DistinctKeys(vs, true);
    if |s| == 1 {
      var k :| k in s;
      assert s == {k} by {
        assert |s - {k}| == 0;
      }
      var j :| 0 <= j < |vs| && !Dropped(vs[j], true) && KeyOf(vs[j]) == k;
      assert forall m | 0 <= m < |vs| && !vs[m].Null? :: KeyOf(vs[m]) in s;
    }
    if OneValue(vs) {
      var j :| 0 <= j < |vs| && !vs[j].Null? &&
        forall k | 0 <= k < |vs| && !vs[k].Null? :: KeyOf(vs[k]) == KeyOf(vs[j]);
      assert s == {KeyOf(vs[j])};
    }
  }

  /** single_unique_columns holds exactly the columns with one distinct
      non-null value; an all-null or empty column is not among them. */
  lemma SingleUniqueExact(cols: seq<Column>)
    requires UniqueNames(cols)
    ensures forall n | n in SingleUniqueColumns(cols) :: exists i :: 0 <= i < |cols| && cols[i].name == n
    ensures forall i | 0 <= i < |cols| :: cols[i].name in SingleUniqueColumns(cols) <==> OneValue(cols[i].values)
  {
    SelectMembers(cols, IsSingleUnique);
    SelectByColumn(cols, IsSingleUnique);
    forall i | 0 <= i < |cols| {
      SingleDistinct(cols[i].values);
    }
  }

  /** constant_columns counts a null as a value: a column is constant when
      it holds no null and one distinct value, or when it is non-empty and
      all null. */
  lemma ConstantColumnsExact(cols: seq<Column>)
    requires UniqueNames(cols)
    ensures forall n | n in ConstantColumns(cols) :: exists i :: 0 <= i < |cols| && cols[i].name == n
    ensures forall i | 0 <= i < |cols| :: var vs := cols[i].values;
              cols[i].name in ConstantColumns(cols) <==>
              (NullCount(vs) == 0 && OneValue(vs)) || (vs != [] && NullCount(vs) == |vs|)
  {
    SelectMembers(cols, IsConstant);
    SelectByColumn(cols, IsConstant);
    forall i | 0 <= i < |cols|
      ensures IsConstant(cols[i]) <==>
              (NullCount(cols[i].values) == 0 && OneValue(cols[i].values))
              || (cols[i].values != [] && NullCount(cols[i].values) == |cols[i].values|)
    {
      ConstantIffOneValueOrAllNull(cols[i].values);
    }
  }

  lemma ConstantIffOneValueOrAllNull(vs: seq<Value>)
    ensures |DistinctKeys(vs, false)| == 1 <==>
            (NullCount(vs) == 0 && OneValue(vs)) || (vs != [] && NullCount(vs) == |vs|)
  {
    DistinctWithNull(vs);
    DistinctEmpty(vs);
    SingleDistinct(vs);
  }

  /** A non-empty all-null column is a missing-values column with every row
      missing, a high-missing column and a constant column, but neither
      single-unique, same-string nor all-zero. */
  lemma AllNullColumn(c: Column)
    requires c.values != [] && forall j | 0 <= j < |c.values| :: c.values[j].Null?
    ensures HasNulls(c) && NullsOf(c) == |c.values| && IsHighMissing(c)
    ensures IsConstant(c)
    ensures !IsSingleUnique(c) && !IsSameString(c) && !IsAllZero(c)
  {
    var vs := c.values;
    NullCountExtremes(vs);
    DistinctWithNull(vs);
    DistinctEmpty(vs);
    MeanAboveHalf(NullCount(vs), |vs|);
    assert !IsZero(vs[0]);
  }

  /** A column with no rows has no distinct value: it is neither constant
      nor single-unique, holds no nulls, and is vacuously all-zero. */
  lemma EmptyColumn(c: Column)
    requires c.values == []
    ensures !IsConstant(c) && !IsSingleUnique(c) && !HasNulls(c) && !IsHighMissing(c) && IsAllZero(c)
  {
    DistinctEmpty(c.values);
  }

  /** all_same_string_columns is single_unique_columns restricted to the
      object columns. */
  lemma SameStringIsObjectSingleUnique(cols: seq<Column>)
    requires UniqueNames(cols)
    ensures forall n | n in AllSameStringColumns(cols) :: n in SingleUniqueColumns(cols)
    ensures forall i | 0 <= i < |cols| ::
              cols[i].name in AllSameStringColumns(cols) <==>
              cols[i].dtype == ObjectDType && cols[i].name in SingleUniqueColumns(cols)
  {
    SelectMembers(cols, IsSameString);
    SelectMembers(cols, IsSingleUnique);
    SelectByColumn(cols, IsSameString);
    SelectByColumn(cols, IsSingleUnique);
  }

  // ---------------------------------------------------- high cardinality

  /** max(50, 0.2 * rows) < d exactly when d > 50 and 5 * d > rows; with
      100 rows, 60 distinct values exceed it and 40 do not. */
  lemma CardinalityThreshold(d: nat, rows: nat)
    ensures CardinalityExceeds(d, rows) <==> d > 50 && 5 * d > rows
    ensures CardinalityExceeds(60, 100) && !CardinalityExceeds(40, 100)
  {
  }

  lemma HighCardinalityExact(cols: seq<Column>, rows: nat)
    requires UniqueNames(cols)
    ensures forall n | n in HighCardinalityColumns(cols, rows) :: exists i :: 0 <= i < |cols| && cols[i].name == n
    ensures forall i | 0 <= i < |cols| :: var d := |DistinctKeys(cols[i].values, true)|;
              cols[i].name in HighCardinalityColumns(cols, rows) <==> d > 50 && 5 * d > rows
  {
    SelectMembers(cols, HighCardinalityAt(rows));
    SelectByColumn(cols, HighCardinalityAt(rows));
    forall i | 0 <= i < |cols| {
      CardinalityThreshold(|DistinctKeys(cols[i].values, true)|, rows);
    }
  }

  /** A dataset of at most 50 rows has no high-cardinality column, since a
      column never has more distinct values than rows. */
  lemma NoHighCardinalityInSmallData(ds: Dataset)
    requires ds.Valid() && ds.rows <= 50
    ensures HighCardinalityColumns(ds.columns, ds.rows) == []
  {
    var cols := ds.columns;
    forall i | 0 <= i < |cols| ensures !HighCardinalityAt(ds.rows)(cols[i]) {
      DistinctBound(cols[i].values);
    }
    SelectNone(cols, HighCardinalityAt(ds.rows));
  }

  // ------------------------------------------------------------ imbalance

  /** A share above 0.95 is 20 * top > 19 * non-null. */
  lemma ShareAboveThreshold(vs: seq<Value>)
    ensures TopShare(vs) > 0.95 <==> NonNullCount(vs) > 0 && 20 * TopCount(vs) > 19 * NonNullCount(vs)
  {
    var n := NonNullCount(vs);
    if n > 0 {
      ScaledComparison(TopCount(vs) as real, n as real, 0.95);
    }
  }

  /** highly_imbalanced_categoricals keys exactly the object and category
      columns whose most frequent non-null value makes up more than 95% of
      the non-null values, mapped to that share; a column with no non-null
      value is never keyed. */
  lemma ImbalancedExact(cols: seq<Column>)
    requires UniqueNames(cols)
    ensures forall n | n in ImbalancedCategoricals(cols) ::
              exists i :: 0 <= i < |cols| && cols[i].name == n && IsCategorical(cols[i])
    ensures forall i | 0 <= i < |cols| :: var vs := cols[i].values;
              cols[i].name in ImbalancedCategoricals(cols) <==>
              IsCategorical(cols[i]) && NonNullCount(vs) > 0 && 20 * TopCount(vs) > 19 * NonNullCount(vs)
    ensures forall i | 0 <= i < |cols| && cols[i].name in ImbalancedCategoricals(cols) ::
              ImbalancedCategoricals(cols)[cols[i].name]
                == TopCount(cols[i].values) as real / NonNullCount(cols[i].values) as real
  {
    KeyedMembers(cols, IsImbalanced, ShareOf);
    forall i | 0 <= i < |cols| {
      ShareAboveThreshold(cols[i].values);
    }
  }

  /** `n` copies of one text value followed by one other: the share of the
      top value is n / (n + 1), above 0.95 exactly when n >= 20 (so 19
      copies and one other give 0.95 and are not flagged, 20 are). */
  lemma RepeatedValueImbalance(n: nat, x: string, y: string)
    requires n >= 1 && x != y
    ensures var c := Column("c", ObjectDType, seq(n, _ => Text(x)) + [Text(y)]);
            (IsImbalanced(c) <==> n >= 20) && ShareOf(c) == n as real / (n + 1) as real
  {
    var xs := seq(n, _ => Text(x));
    var vs := xs + [Text(y)];
    RepeatedCounts(xs, vs, x, y);
    TopCountIsMaximum(vs);
    assert vs[0] == Text(x);
    var i :| 0 <= i < |vs| && !vs[i].Null? && KeyCount(vs, KeyOf(vs[i])) == TopCount(vs);
    assert KeyOf(vs[i]) == StrKey(x) || KeyOf(vs[i]) == StrKey(y);
    assert TopCount(vs) == n;
    ShareAboveThreshold(vs);
  }

  /** In n copies of `x` followed by one `y`, `x` occurs n times and `y`
      once, out of n + 1 non-null values. */
  lemma RepeatedCounts(xs: seq<Value>, vs: seq<Value>, x: string, y: string)
    requires x != y && vs == xs + [Text(y)]
    requires forall k | 0 <= k < |xs| :: xs[k] == Text(x)
    ensures NonNullCount(vs) == |vs| == |xs| + 1
    ensures KeyCount(vs, StrKey(x)) == |xs| && KeyCount(vs, StrKey(y)) == 1
  {
    NullCountExtremes(vs);
    var px := (v: Value) => KeyOf(v) == StrKey(x);
    var py := (v: Value) => KeyOf(v) == StrKey(y);
    CountAppend(xs, [Text(y)], px);
    CountAppend(xs, [Text(y)], py);
    CountEvery(xs, px);
    CountNone(xs, py);
  }

  // ------------------------------------------------------------- all zero

  /** all_zero_columns holds exactly the columns whose every value is
      False, 0 or 0.0; a column with a null is never among them. */
  lemma AllZeroExact(cols: seq<Column>)
    requires UniqueNames(cols)
    ensures forall n | n in AllZeroColumns(cols) :: exists i :: 0 <= i < |cols| && cols[i].name == n
    ensures forall i | 0 <= i < |cols| :: var vs := cols[i].values;
              cols[i].name in AllZeroColumns(cols) <==>
              forall j | 0 <= j < |vs| :: vs[j] == Bool(false) || vs[j] == Int(0) || vs[j] == Float(0.0)
    ensures forall i | 0 <= i < |cols| && NullCount(cols[i].values) > 0 :: cols[i].name !in AllZeroColumns(cols)
  {
    SelectMembers(cols, IsAllZero);
    SelectByColumn(cols, IsAllZero);
    forall i | 0 <= i < |cols| {
      NullCountExtremes(cols[i].values);
    }
  }

  // ------------------------------------------------------- date parsing

  /** potential_datetime_parse_issues holds exactly the object columns the
      parser rejects. */
  lemma DatetimeParseIssuesExact(cols: seq<Column>, toDatetime: seq<Value> -> bool)
    requires UniqueNames(cols)
    ensures forall n | n in DatetimeParseIssues(cols, toDatetime) :: exists i :: 0 <= i < |cols| && cols[i].name == n
    ensures forall i | 0 <= i < |cols| ::
              cols[i].name in DatetimeParseIssues(cols, toDatetime) <==>
              cols[i].dtype == ObjectDType && !toDatetime(cols[i].values)
  {
    SelectMembers(cols, DateParseFailureAt(toDatetime));
    SelectByColumn(cols, DateParseFailureAt(toDatetime));
  }
}
