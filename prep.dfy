/**
  The two pieces of prep.py that carry their own logic: the positional
  train/validate/test split (`get_proportional_splits`) and the separation of
  the target column from the feature columns (`isolate_lm_target`).
 */
module Prep {
  import opened Frame
  import opened Rounding

  // ---------------------------------------------------------------------
  // Positional three-way split
  // ---------------------------------------------------------------------

  /** `round(len(df) * .5)`; the float product n * 0.5 is exactly n / 2. */
  function TrainSize(n: nat): (r: int)
    ensures IsRoundHalfEven(n, 2, r) && 0 <= r <= n
  {
    RoundHalfEven(n, 2)
  }

  /** `round(len(df) * .3)`, taking the product as the exact 3n / 10. */
  function ValidateSize(n: nat): (r: int)
    ensures IsRoundHalfEven(3 * n, 10, r) && 0 <= r <= n
  {
    RoundHalfEven(3 * n, 10)
  }

  /** `len(df) - train_size - validate_size` */
  function TestSize(n: nat): (r: int)
    ensures 0 <= r <= n && TrainSize(n) + ValidateSize(n) + r == n
  {
    AnyNearestRoundingFits(n, TrainSize(n), ValidateSize(n));
    n - TrainSize(n) - ValidateSize(n)
  }

  /**
    Whatever integers the two roundings pick, as long as each lies within one
    half of n/2 and 3n/10, they are non-negative and leave room for the test
    partition.
   */
  lemma AnyNearestRoundingFits(n: nat, t: int, v: int)
    requires IsNearest(n, 2, t) && IsNearest(3 * n, 10, v)
    ensures 0 <= t && 0 <= v && t + v <= n
  {
  }

  /**
    The same with the products computed in floating point: if the float
    `n * .3` is off the exact 3n/10 by less than 1/20, the rounded sizes
    still fit.
   */
  lemma FloatRoundingFits(n: nat, x: real, t: int, v: int)
    requires -1.0 < 2.0 * (10.0 * x - (3 * n) as real) < 1.0
    requires -1.0 <= 2.0 * (t as real - n as real / 2.0) <= 1.0
    requires -1.0 <= 2.0 * (v as real - x) <= 1.0
    ensures 0 <= t && 0 <= v && t + v <= n
  {
    NearestDespiteError(3 * n, 10, 10.0 * x, v);
    NearestDespiteError(n, 2, n as real, t);
    AnyNearestRoundingFits(n, t, v);
  }

  /** The three sizes are in range and add up to the row count. */
  lemma SplitSizes(n: nat)
    ensures 0 <= TrainSize(n) <= TrainSize(n) + ValidateSize(n) <= n
    ensures 0 <= TestSize(n)
    ensures TrainSize(n) + ValidateSize(n) + TestSize(n) == n
  {
    AnyNearestRoundingFits(n, TrainSize(n), ValidateSize(n));
  }

  datatype Splits<V> = Splits(train: Table<V>, validate: Table<V>, test: Table<V>)

  /**
    The three contiguous, unshuffled slices `df[:train_size]`,
    `df[train_size:val_end_idx]` and `df[val_end_idx:]`.  Every bound is
    within the table, and the slices put back together are the table.
   */
  function ProportionalSplits<V>(df: Table<V>): (s: Splits<V>)
    ensures s.train.columns == df.columns && s.validate.columns == df.columns && s.test.columns == df.columns
    ensures s.train.rows + s.validate.rows + s.test.rows == df.rows
    ensures |s.train.rows| == TrainSize(|df.rows|)
    ensures |s.validate.rows| == ValidateSize(|df.rows|)
    ensures |s.test.rows| == TestSize(|df.rows|)
    ensures WellFormed(df) ==> WellFormed(s.train) && WellFormed(s.validate) && WellFormed(s.test)
  {
    var n := |df.rows|;
    SplitSizes(n);
    var trainSize, valEndIdx := TrainSize(n), TrainSize(n) + ValidateSize(n);
    assert df.rows[..trainSize] + df.rows[trainSize..valEndIdx] + df.rows[valEndIdx..] == df.rows;
    Splits(Table(df.columns, df.rows[..trainSize]),
           Table(df.columns, df.rows[trainSize..valEndIdx]),
           Table(df.columns, df.rows[valEndIdx..]))
  }

  /** pandas `df.size`: the number of cells, rows times columns. */
  function CellCount<V>(df: Table<V>): (r: nat)
    ensures r == |df.rows| <==> |df.rows| == 0 || |df.columns| == 1
  {
    CellCountIsRowCount(|df.rows|, |df.columns|);
    |df.rows| * |df.columns|
  }

  /** n * c == n exactly when there are no rows or exactly one column. */
  lemma CellCountIsRowCount(n: nat, c: nat)
    ensures n * c == n <==> n == 0 || c == 1
  {
    if n > 0 && c > 1 {
      ProductNonNegative(n, c - 2);
      Distribute(n, c - 2, 2);
    }
  }

  /**
    `get_proportional_splits` as written: the final assertion compares the
    size sum with `df.size`, so it raises on every table that has a row and
    more or fewer than one column.
   */
  function GetProportionalSplitsAsWritten<V>(df: Table<V>): (r: Result<Splits<V>>)
    ensures r.Ok? <==> |df.rows| == 0 || |df.columns| == 1
    ensures r.Ok? ==> r.value == ProportionalSplits(df)
    ensures r.Err? ==> r.error == AssertionFailed
  {
    var n := |df.rows|;
    var s := ProportionalSplits(df);
    CellCountIsRowCount(n, |df.columns|);
    if TrainSize(n) + ValidateSize(n) + TestSize(n) == CellCount(df) then Ok(s)
    else Err(AssertionFailed)
  }

  /** A one-row frame with two columns already trips the assertion. */
  lemma AsWrittenRejectsTwoColumns<V>(price: V, beds: V)
    ensures GetProportionalSplitsAsWritten(Table(["tax_val", "beds"], [Row(0, [price, beds])])).Err?
  {
  }

  /**
    `get_proportional_splits` with the check against the row count
    (`len(df)`), which is what guards against a rounding that drops or
    duplicates rows: it never fires.
   */
  function GetProportionalSplits<V>(df: Table<V>): (r: Result<Splits<V>>)
    ensures r.Ok?
    ensures r.value == ProportionalSplits(df)
    ensures r.value.train.rows + r.value.validate.rows + r.value.test.rows == df.rows
    ensures r.value.train.columns == df.columns && r.value.validate.columns == df.columns && r.value.test.columns == df.columns
  {
    var n := |df.rows|;
    var s := ProportionalSplits(df);
    if TrainSize(n) + ValidateSize(n) + TestSize(n) == n then Ok(s)
    else Err(AssertionFailed)
  }

  // ---------------------------------------------------------------------
  // Target isolation
  // ---------------------------------------------------------------------

  /** The columns of `t` whose name is (`matching`) or is not `target`, every row kept. */
  function Project<V>(t: Table<V>, target: string, matching: bool): (r: Table<V>)
    requires WellFormed(t)
    ensures WellFormed(r) && |r.rows| == |t.rows|
    ensures r.columns == Pick(t.columns, t.columns, target, matching)
    ensures forall i :: 0 <= i < |r.rows| ==>
      r.rows[i] == Row(t.rows[i].index, Pick(t.columns, t.rows[i].cells, target, matching))
  {
    Table(Pick(t.columns, t.columns, target, matching),
          seq(|t.rows|, i requires 0 <= i < |t.rows| =>
            Row(t.rows[i].index, Pick(t.columns, t.rows[i].cells, target, matching))))
  }

  /** `t.drop(columns=[target])`: raises when `target` is not a column. */
  function DropColumn<V>(t: Table<V>, target: string): (r: Result<Table<V>>)
    requires WellFormed(t)
    ensures r.Ok? <==> target in t.columns
    ensures r.Err? ==> r.error == MissingColumn(target)
    ensures r.Ok? ==> WellFormed(r.value) && |r.value.rows| == |t.rows|
    ensures r.Ok? ==> forall c :: c in r.value.columns <==> c in t.columns && c != target
    ensures r.Ok? ==> |r.value.columns| == |t.columns| - Occurrences(t.columns, target)
    ensures r.Ok? ==> forall i :: 0 <= i < |t.rows| ==> r.value.rows[i].index == t.rows[i].index
    ensures r.Ok? ==> r.value == Project(t, target, false)
  {
    if target !in t.columns then Err(MissingColumn(target))
    else
      PickOthersMembers(t.columns, target);
      Ok(Project(t, target, false))
  }

  /** `t[[target]]`: a frame of the columns named `target`; raises when there is none. */
  function SelectColumn<V>(t: Table<V>, target: string): (r: Result<Table<V>>)
    requires WellFormed(t)
    ensures r.Ok? <==> target in t.columns
    ensures r.Err? ==> r.error == MissingColumn(target)
    ensures r.Ok? ==> WellFormed(r.value) && |r.value.rows| == |t.rows|
    ensures r.Ok? ==> |r.value.columns| == Occurrences(t.columns, target) > 0
    ensures r.Ok? ==> forall c :: c in r.value.columns ==> c == target
    ensures r.Ok? ==> forall i :: 0 <= i < |t.rows| ==> r.value.rows[i].index == t.rows[i].index
    ensures r.Ok? ==> r.value == Project(t, target, true)
  {
    if target !in t.columns then Err(MissingColumn(target))
    else
      PickTargetMembers(t.columns, target);
      Ok(Project(t, target, true))
  }

  /**
    x and y are the feature and target frames of partition p: every column
    name of p lands in exactly one of them (the target's in y, all others in
    x), both keep every row of p with its index label and in p's order, and
    merging row i of x with row i of y by p's column names gives back row i
    of p.
   */
  ghost predicate IsXy<V>(p: Table<V>, x: Table<V>, y: Table<V>, target: string)
    requires WellFormed(p)
  {
    && WellFormed(x) && WellFormed(y)
    && |x.columns| == |p.columns| - Occurrences(p.columns, target)
    && |y.columns| == Occurrences(p.columns, target)
    && Merge(p.columns, x.columns, y.columns, target) == p.columns
    && (forall c :: c in x.columns <==> c in p.columns && c != target)
    && (forall c :: c in y.columns ==> c == target)
    && |x.rows| == |p.rows| && |y.rows| == |p.rows|
    && forall i :: 0 <= i < |p.rows| ==>
         && x.rows[i].index == p.rows[i].index
         && y.rows[i].index == p.rows[i].index
         && Merge(p.columns, x.rows[i].cells, y.rows[i].cells, target) == p.rows[i].cells
  }

  datatype Xy<V> = Xy(x: Table<V>, y: Table<V>)

  /** Splitting p by `target` and merging back recovers p, row by row. */
  lemma ProjectRecombines<V>(p: Table<V>, target: string)
    requires WellFormed(p)
    ensures IsXy(p, Project(p, target, false), Project(p, target, true), target)
  {
    var x, y := Project(p, target, false), Project(p, target, true);
    MergePick(p.columns, p.columns, target);
    PickOthersMembers(p.columns, target);
    PickTargetMembers(p.columns, target);
    forall i | 0 <= i < |p.rows|
      ensures Merge(p.columns, x.rows[i].cells, y.rows[i].cells, target) == p.rows[i].cells
    {
      MergePick(p.columns, p.rows[i].cells, target);
    }
  }

  /** One partition's `drop(columns=[target])` followed by `[[target]]`. */
  function Isolate<V>(p: Table<V>, target: string): (r: Result<Xy<V>>)
    requires WellFormed(p)
    ensures r.Ok? <==> target in p.columns
    ensures r.Err? ==> r.error == MissingColumn(target)
    ensures r.Ok? ==> IsXy(p, r.value.x, r.value.y, target)
  {
    match DropColumn(p, target)
    case Err(e) => Err(e)
    case Ok(x) =>
      match SelectColumn(p, target)
      case Err(e) => Err(e)
      case Ok(y) =>
        ProjectRecombines(p, target);
        Ok(Xy(x, y))
  }

  /**
    With `target` the name of exactly one column, at position pos, y is that
    single column and x is every other column in its original order.
   */
  lemma IsolateUniqueTarget<V>(p: Table<V>, target: string, pos: nat)
    requires WellFormed(p) && pos < |p.columns| && p.columns[pos] == target
    requires Occurrences(p.columns, target) == 1
    ensures Isolate(p, target).Ok?
    ensures Isolate(p, target).value.y.columns == [target]
    ensures Isolate(p, target).value.x.columns == p.columns[..pos] + p.columns[pos + 1..]
    ensures forall i :: 0 <= i < |p.rows| ==>
      && Isolate(p, target).value.x.rows[i].cells == p.rows[i].cells[..pos] + p.rows[i].cells[pos + 1..]
      && Isolate(p, target).value.y.rows[i].cells == [p.rows[i].cells[pos]]
  {
    var xy := Isolate(p, target).value;
    assert xy == Xy(Project(p, target, false), Project(p, target, true));
    PickOthersAround(p.columns, p.columns, target, pos);
    forall i | 0 <= i < |p.rows|
      ensures && xy.x.rows[i].cells == p.rows[i].cells[..pos] + p.rows[i].cells[pos + 1..]
              && xy.y.rows[i].cells == [p.rows[i].cells[pos]]
    {
      PickOthersAround(p.columns, p.rows[i].cells, target, pos);
    }
  }

  datatype Isolated<V> = Isolated(
    xTrain: Table<V>, yTrain: Table<V>,
    xValidate: Table<V>, yValidate: Table<V>,
    xTest: Table<V>, yTest: Table<V>)

  /**
    `isolate_lm_target`: the feature and target frames of all three
    partitions, or the missing-column failure if any partition lacks
    `target` (the first one, in the order train, validate, test, raises).
   */
  function IsolateLmTarget<V>(train: Table<V>, validate: Table<V>, test: Table<V>, target: string): (r: Result<Isolated<V>>)
    requires WellFormed(train) && WellFormed(validate) && WellFormed(test)
    ensures r.Ok? <==> target in train.columns && target in validate.columns && target in test.columns
    ensures r.Err? ==> r.error == MissingColumn(target)
    ensures r.Ok? ==> IsXy(train, r.value.xTrain, r.value.yTrain, target)
    ensures r.Ok? ==> IsXy(validate, r.value.xValidate, r.value.yValidate, target)
    ensures r.Ok? ==> IsXy(test, r.value.xTest, r.value.yTest, target)
  {
    match Isolate(train, target)
    case Err(e) => Err(e)
    case Ok(tr) =>
      match Isolate(validate, target)
      case Err(e) => Err(e)
      case Ok(va) =>
        match Isolate(test, target)
        case Err(e) => Err(e)
        case Ok(te) => Ok(Isolated(tr.x, tr.y, va.x, va.y, te.x, te.y))
  }
}
