/** The table the detector inspects: tagged cell values, declared column
    storage kinds, named columns and a rectangular dataset. */
module Table {

  /** A cell value, tagged by its runtime representation. `Null` is the
      missing marker of parsed data, NaN. `Other` stands for any object of
      some further class, identified by its printed form: all such objects
      share one runtime type, compare equal when their printed forms agree
      and never equal 0. */
  datatype Value =
    | Null
    | Bool(b: bool)
    | Int(i: int)
    | Float(x: real)
    | Text(s: string)
    | Other(repr: string)

  /** The runtime type of a value, as `map(type)` reports it. */
  datatype Kind = BoolType | IntType | FloatType | StrType | OtherType

  /** Every kind there is. */
  const AllKinds: set<Kind> := {BoolType, IntType, FloatType, StrType, OtherType}

  /** NaN is a float, so a missing cell has the runtime type of a float. */
  function KindOf(v: Value): (k: Kind)
    ensures k in AllKinds
    ensures k == FloatType <==> v.Null? || v.Float?
  {
    match v
    case Null => FloatType
    case Bool(_) => BoolType
    case Int(_) => IntType
    case Float(_) => FloatType
    case Text(_) => StrType
    case Other(_) => OtherType
  }

  /** The class of a value under Python's `==` and `hash`, which pandas uses
      when it counts distinct values, finds duplicate rows and compares with
      a scalar: booleans, integers and floats that are numerically equal are
      the same value (True == 1 == 1.0). */
  datatype Key = NullKey | NumKey(x: real) | StrKey(s: string) | OtherKey(r: string)

  function KeyOf(v: Value): (k: Key)
    ensures k == NullKey <==> v == Null
  {
    match v
    case Null => NullKey
    case Bool(b) => NumKey(if b then 1.0 else 0.0)
    case Int(i) => NumKey(i as real)
    case Float(x) => NumKey(x)
    case Text(s) => StrKey(s)
    case Other(r) => OtherKey(r)
  }

  /** The storage kind a column is declared with (its dtype). */
  datatype DType = NumberDType | ObjectDType | CategoryDType | BoolDType | OtherDType

  datatype Column = Column(name: string, dtype: DType, values: seq<Value>)

  /** A dataset: a row count and its columns, in order. The row count is kept
      apart from the columns so that a frame with no columns still has one. */
  datatype Dataset = Dataset(rows: nat, columns: seq<Column>) {

    /** Rectangular, with unique column names. */
    predicate Valid() {
      && (forall i | 0 <= i < |columns| :: |columns[i].values| == rows)
      && UniqueNames(columns)
    }
  }

  predicate UniqueNames(cols: seq<Column>) {
    forall i, j | 0 <= i < j < |cols| :: cols[i].name != cols[j].name
  }

  /** Row `r` of the dataset, as the tuple of its cells' equality classes. */
  function Row(ds: Dataset, r: nat): (row: seq<Key>)
    requires ds.Valid() && r < ds.rows
    ensures |row| == |ds.columns|
    ensures forall j | 0 <= j < |ds.columns| :: row[j] == KeyOf(ds.columns[j].values[r])
  {
    seq(|ds.columns|, j requires 0 <= j < |ds.columns| => KeyOf(ds.columns[j].values[r]))
  }

  /** All rows, top to bottom. */
  function Rows(ds: Dataset): (rs: seq<seq<Key>>)
    requires ds.Valid()
    ensures |rs| == ds.rows
    ensures forall r | 0 <= r < ds.rows :: rs[r] == Row(ds, r)
  {
    seq(ds.rows, r requires 0 <= r < ds.rows => Row(ds, r))
  }
}
