/** The issue detector: thirteen independent data-quality checks over a
    dataset, gathered into one report that always carries every check. */
module Detector {
  import opened Table
  import opened Counting
  import opened Quartiles

  // ------------------------------------------- the two shapes of results

  /** The names of the columns that pass `p`, in column order
      (`[col for col in columns if p(col)]`). */
  function Select(cols: seq<Column>, p: Column -> bool): seq<string> {
    if cols == [] then []
    else
      var rest := Select(cols[..|cols| - 1], p);
      var c := cols[|cols| - 1];
      if p(c) then rest + [c.name] else rest
  }

  /** The dictionary that maps each column passing `p` to `f` of it, built
      by inserting the columns one after the other. */
  function Keyed<V>(cols: seq<Column>, p: Column -> bool, f: Column -> V): map<string, V> {
    if cols == [] then map[]
    else
      var rest := Keyed(cols[..|cols| - 1], p, f);
      var c := cols[|cols| - 1];
      if p(c) then rest[c.name := f(c)] else rest
  }

  /** A name is listed exactly when a column of that name passes `p`. */
  lemma {:induction false} SelectMembers(cols: seq<Column>, p: Column -> bool)
    ensures forall n :: n in Select(cols, p) <==> exists i :: 0 <= i < |cols| && cols[i].name == n && p(cols[i])
  {
    if cols != [] {
      var t := cols[..|cols| - 1];
      SelectMembers(t, p);
      assert forall i | 0 <= i < |t| :: t[i] == cols[i];
    }
  }

  /** When no column passes `p`, nothing is listed. */
  lemma {:induction false} SelectNone(cols: seq<Column>, p: Column -> bool)
    requires forall i | 0 <= i < |cols| :: !p(cols[i])
    ensures Select(cols, p) == []
  {
    if cols != [] {
      var t := cols[..|cols| - 1];
      assert forall i | 0 <= i < |t| :: t[i] == cols[i];
      SelectNone(t, p);
    }
  }

  /** With unique names, a column is listed exactly when it passes `p`. */
  lemma SelectByColumn(cols: seq<Column>, p: Column -> bool)
    requires UniqueNames(cols)
    ensures forall i | 0 <= i < |cols| :: cols[i].name in Select(cols, p) <==> p(cols[i])
  {
    SelectMembers(cols, p);
  }

  /** With unique names, exactly the columns passing `p` are keys, each
      mapped to `f` of itself. */
  lemma {:induction false} KeyedMembers<V>(cols: seq<Column>, p: Column -> bool, f: Column -> V)
    requires UniqueNames(cols)
    ensures forall n | n in Keyed(cols, p, f) :: exists i :: 0 <= i < |cols| && cols[i].name == n && p(cols[i])
    ensures forall i | 0 <= i < |cols| :: cols[i].name in Keyed(cols, p, f) <==> p(cols[i])
    ensures forall i | 0 <= i < |cols| && p(cols[i]) :: Keyed(cols, p, f)[cols[i].name] == f(cols[i])
  {
    if cols != [] {
      var t := cols[..|cols| - 1];
      assert forall i | 0 <= i < |t| :: t[i] == cols[i];
      KeyedMembers(t, p, f);
    }
  }

  // ---------------------------------------------------------- the checks

  /** missing_values: each column holding a null, with its null count. */
  predicate HasNulls(c: Column) { NullCount(c.values) > 0 }
  function NullsOf(c: Column): nat { NullCount(c.values) }
  function MissingValues(cols: seq<Column>): map<string, nat> {
    Keyed(cols, HasNulls, NullsOf)
  }

  /** duplicate_rows: rows equal to an earlier row. pandas answers an empty
      frame (no rows or no columns) with an empty marking, hence 0. */
  function DuplicateRows(ds: Dataset): nat
    requires ds.Valid()
  {
    if ds.columns == [] then 0 else DuplicateCount(Rows(ds))
  }

  /** type_inconsistencies: columns in which two or more runtime types occur,
      with their per-type tallies. */
  function TypesOf(c: Column): map<Kind, nat> { Tally(c.values) }
  predicate HasMixedTypes(c: Column) { |Tally(c.values)| > 1 }
  function TypeInconsistencies(cols: seq<Column>): map<string, map<Kind, nat>> {
    Keyed(cols, HasMixedTypes, TypesOf)
  }

  /** outliers: numeric columns with at least one IQR outlier, with the count. */
  function OutliersOf(c: Column): nat { OutlierCount(c.values) }
  predicate HasOutliers(c: Column) { c.dtype == NumberDType && OutlierCount(c.values) > 0 }
  function Outliers(cols: seq<Column>): map<string, nat> {
    Keyed(cols, HasOutliers, OutliersOf)
  }

  /** constant_columns: one distinct value, a null counting as a value. */
  predicate IsConstant(c: Column) { |DistinctKeys(c.values, false)| == 1 }
  function ConstantColumns(cols: seq<Column>): seq<string> {
    Select(cols, IsConstant)
  }

  /** high_cardinality_columns: more distinct non-null values than
      max(50, 0.2 * rows). */
  predicate CardinalityExceeds(distinct: nat, rows: nat) {
    var limit := if 50.0 >= 0.2 * rows as real then 50.0 else 0.2 * rows as real;
    distinct as real > limit
  }
  function HighCardinalityAt(rows: nat): Column -> bool {
    (c: Column) => CardinalityExceeds(|DistinctKeys(c.values, true)|, rows)
  }
  function HighCardinalityColumns(cols: seq<Column>, rows: nat): seq<string> {
    Select(cols, HighCardinalityAt(rows))
  }

  /** single_unique_columns: one distinct non-null value. */
  predicate IsSingleUnique(c: Column) { |DistinctKeys(c.values, true)| == 1 }
  function SingleUniqueColumns(cols: seq<Column>): seq<string> {
    Select(cols, IsSingleUnique)
  }

  /** mixed_type_object_columns: type_inconsistencies among object columns. */
  predicate IsMixedObject(c: Column) { c.dtype == ObjectDType && |Tally(c.values)| > 1 }
  function MixedTypeObjectColumns(cols: seq<Column>): map<string, map<Kind, nat>> {
    Keyed(cols, IsMixedObject, TypesOf)
  }

  /** high_missing_pct_columns: the mean of `isnull()` is above 0.5. The
      mean of an empty column is NaN, which is not above anything. */
  predicate IsHighMissing(c: Column) {
    |c.values| > 0 && NullCount(c.values) as real / |c.values| as real > 0.5
  }
  function HighMissingColumns(cols: seq<Column>): seq<string> {
    Select(cols, IsHighMissing)
  }

  /** highly_imbalanced_categoricals: object or category columns whose most
      frequent non-null value holds more than 95% of the non-null values,
      with that share. */
  predicate IsCategorical(c: Column) { c.dtype == ObjectDType || c.dtype == CategoryDType }
  function ShareOf(c: Column): real { TopShare(c.values) }
  predicate IsImbalanced(c: Column) { IsCategorical(c) && TopShare(c.values) > 0.95 }
  function ImbalancedCategoricals(cols: seq<Column>): map<string, real> {
    Keyed(cols, IsImbalanced, ShareOf)
  }

  /** all_zero_columns: `(column == 0).all()`. Null and text values never
      equal 0; False, 0 and 0.0 do; an empty column passes. An `Other`
      value is taken never to equal 0. */
  predicate IsZero(v: Value) { KeyOf(v) == NumKey(0.0) }
  predicate IsAllZero(c: Column) { forall i | 0 <= i < |c.values| :: IsZero(c.values[i]) }
  function AllZeroColumns(cols: seq<Column>): seq<string> {
    Select(cols, IsAllZero)
  }

  /** all_same_string_columns: object columns with one distinct non-null value. */
  predicate IsSameString(c: Column) { c.dtype == ObjectDType && |DistinctKeys(c.values, true)| == 1 }
  function AllSameStringColumns(cols: seq<Column>): seq<string> {
    Select(cols, IsSameString)
  }

  /** potential_datetime_parse_issues: object columns that the date parser,
      given as `toDatetime` (true when every value parses), rejects. */
  function DateParseFailureAt(toDatetime: seq<Value> -> bool): Column -> bool {
    (c: Column) => c.dtype == ObjectDType && !toDatetime(c.values)
  }
  function DatetimeParseIssues(cols: seq<Column>, toDatetime: seq<Value> -> bool): seq<string> {
    Select(cols, DateParseFailureAt(toDatetime))
  }

  // ---------------------------------------------------------- the report

  /** One field per check, so no key can ever be missing. */
  datatype Report = Report(
    missingValues: map<string, nat>,
    duplicateRows: nat,
    typeInconsistencies: map<string, map<Kind, nat>>,
    outliers: map<string, nat>,
    constantColumns: seq<string>,
    highCardinalityColumns: seq<string>,
    singleUniqueColumns: seq<string>,
    mixedTypeObjectColumns: map<string, map<Kind, nat>>,
    highMissingPctColumns: seq<string>,
    highlyImbalancedCategoricals: map<string, real>,
    allZeroColumns: seq<string>,
    allSameStringColumns: seq<string>,
    potentialDatetimeParseIssues: seq<string>)

  /** The report of one analysis, as a value. */
  function Analyze(ds: Dataset, toDatetime: seq<Value> -> bool): Report
    requires ds.Valid()
  {
    var cols := ds.columns;
    Report(
      MissingValues(cols),
      DuplicateRows(ds),
      TypeInconsistencies(cols),
      Outliers(cols),
      ConstantColumns(cols),
      HighCardinalityColumns(cols, ds.rows),
      SingleUniqueColumns(cols),
      MixedTypeObjectColumns(cols),
      HighMissingColumns(cols),
      ImbalancedCategoricals(cols),
      AllZeroColumns(cols),
      AllSameStringColumns(cols),
      DatetimeParseIssues(cols, toDatetime))
  }

  /** The loop filling `type_issues`. */
  method CollectTypeInconsistencies(cols: seq<Column>) returns (typeIssues: map<string, map<Kind, nat>>)
    ensures typeIssues == TypeInconsistencies(cols)
  {
    typeIssues := map[];
    for i := 0 to |cols|
      invariant typeIssues == Keyed(cols[..i], HasMixedTypes, TypesOf)
    {
      assert cols[..i + 1][..i] == cols[..i];
      var types := Tally(cols[i].values);
      if |types| > 1 {
        typeIssues := typeIssues[cols[i].name := types];
      }
    }
    assert cols[..|cols|] == cols;
  }

  /** The loop filling `outliers`, over the numeric columns. */
  method CollectOutliers(cols: seq<Column>) returns (outliers: map<string, nat>)
    ensures outliers == Outliers(cols)
  {
    outliers := map[];
    for i := 0 to |cols|
      invariant outliers == Keyed(cols[..i], HasOutliers, OutliersOf)
    {
      assert cols[..i + 1][..i] == cols[..i];
      if cols[i].dtype == NumberDType {
        var outlierCount := OutlierCount(cols[i].values);
        if outlierCount > 0 {
          outliers := outliers[cols[i].name := outlierCount];
        }
      }
    }
    assert cols[..|cols|] == cols;
  }

  /** The loop filling `mixed_types`, over the object columns. */
  method CollectMixedTypes(cols: seq<Column>) returns (mixedTypes: map<string, map<Kind, nat>>)
    ensures mixedTypes == MixedTypeObjectColumns(cols)
  {
    mixedTypes := map[];
    for i := 0 to |cols|
      invariant mixedTypes == Keyed(cols[..i], IsMixedObject, TypesOf)
    {
      assert cols[..i + 1][..i] == cols[..i];
      if cols[i].dtype == ObjectDType {
        var types := Tally(cols[i].values);
        if |types| > 1 {
          mixedTypes := mixedTypes[cols[i].name := types];
        }
      }
    }
    assert cols[..|cols|] == cols;
  }

  /** The loop filling `imbalanced`, over the object and category columns. */
  method CollectImbalanced(cols: seq<Column>) returns (imbalanced: map<string, real>)
    ensures imbalanced == ImbalancedCategoricals(cols)
  {
    imbalanced := map[];
    for i := 0 to |cols|
      invariant imbalanced == Keyed(cols[..i], IsImbalanced, ShareOf)
    {
      assert cols[..i + 1][..i] == cols[..i];
      if cols[i].dtype == ObjectDType || cols[i].dtype == CategoryDType {
        var topFreq := TopShare(cols[i].values);
        if topFreq > 0.95 {
          imbalanced := imbalanced[cols[i].name := topFreq];
        }
      }
    }
    assert cols[..|cols|] == cols;
  }

  /** The loop appending to `date_parse_issues`, over the object columns. */
  method CollectDateParseIssues(cols: seq<Column>, toDatetime: seq<Value> -> bool)
    returns (dateParseIssues: seq<string>)
    ensures dateParseIssues == DatetimeParseIssues(cols, toDatetime)
  {
    dateParseIssues := [];
    for i := 0 to |cols|
      invariant dateParseIssues == Select(cols[..i], DateParseFailureAt(toDatetime))
    {
      assert cols[..i + 1][..i] == cols[..i];
      if cols[i].dtype == ObjectDType {
        if !toDatetime(cols[i].values) {
          dateParseIssues := dateParseIssues + [cols[i].name];
        }
      }
    }
    assert cols[..|cols|] == cols;
  }

  /** `analyze_issues`: every check, in the source's order, each key
      assigned exactly once. */
  method AnalyzeIssues(ds: Dataset, toDatetime: seq<Value> -> bool) returns (issues: Report)
    requires ds.Valid()
    ensures issues == Analyze(ds, toDatetime)
  {
    var cols := ds.columns;
    var missing := MissingValues(cols);
    var duplicates := DuplicateRows(ds);
    var typeIssues := CollectTypeInconsistencies(cols);
    var outliers := CollectOutliers(cols);
    var constant := ConstantColumns(cols);
    var highCardinality := HighCardinalityColumns(cols, ds.rows);
    var singleUnique := SingleUniqueColumns(cols);
    var mixedTypes := CollectMixedTypes(cols);
    var highMissing := HighMissingColumns(cols);
    var imbalanced := CollectImbalanced(cols);
    var allZeros := AllZeroColumns(cols);
    var allSameStr := AllSameStringColumns(cols);
    var dateParseIssues := CollectDateParseIssues(cols, toDatetime);
    issues := Report(missing, duplicates, typeIssues, outliers, constant, highCardinality,
                     singleUnique, mixedTypes, highMissing, imbalanced, allZeros, allSameStr,
                     dateParseIssues);
  }
}
