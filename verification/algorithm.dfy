/** The nearest-neighbour ABC algorithm family: the validated reference table with its optional
    standardisation, the nearest-neighbour sampler, the compressor contract and the static
    compressor sampler (with its linear-regression instance). The feature-subset search is in
    module SubsetSearch.

    The standard scaler's fitting, the regression fit and prediction, and any compressor are
    numeric collaborators outside this model: they appear as function-valued parameters. */
module Algorithm {
  import opened NdArrays
  import opened Neighbors

  /** A fitted per-row transformation that keeps the number of columns (a fitted standard
      scaler's `transform`, which centres and scales each column). */
  type RowMap = f: Row -> Row | forall r :: |f(r)| == |r| witness (r: Row) => r

  /** A fitted standard scaler: the number of columns it was fitted on, and its transform. */
  datatype Scaler = Scaler(width: nat, apply: RowMap)

  /** Fits a standard scaler's transform to a table (the scaler's own numerics). */
  type Fitter = seq<Row> -> RowMap

  /** A compressor: a function from raw data to (fewer) features. */
  type Compressor = NdArray -> NdArray

  /** Fits a regression of parameters on features and returns its prediction function. */
  type RegressionFitter = (NdArray, NdArray) -> Compressor

  function MapRows(f: RowMap, rows: seq<Row>): (r: seq<Row>)
    ensures |r| == |rows|
    ensures forall i :: 0 <= i < |rows| ==> r[i] == f(rows[i]) && |r[i]| == |rows[i]|
  {
    seq(|rows|, i requires 0 <= i < |rows| => f(rows[i]))
  }

  /** `scaler.transform(a)`: the scaler's input validation accepts only a matrix with at least
      one row and the fitted number of columns, in that order of checks; each row is then
      transformed on its own. */
  function Transform(s: Scaler, a: NdArray): (r: Result<NdArray>)
    ensures !a.Matrix? ==> r == Err(QueryNotTwoDimensional)
    ensures a.Matrix? && a.rows == [] ==> r == Err(QueryHasNoRows)
    ensures a.Matrix? && a.rows != [] && a.width != s.width ==> r == Err(QueryWidthMismatch)
    ensures r.Ok? <==> a.Matrix? && a.rows != [] && a.width == s.width
    ensures r.Ok? ==> r.value.Matrix? && r.value.width == a.width &&
                      r.value.rows == MapRows(s.apply, a.rows)
  {
    if !a.Matrix? then Err(QueryNotTwoDimensional)
    else if a.rows == [] then Err(QueryHasNoRows)
    else if a.width != s.width then Err(QueryWidthMismatch)
    else
      var rows := MapRows(s.apply, a.rows);
      assert Rectangular(rows, a.width);
      Ok(Matrix(rows, a.width))
  }

  /** Applies the scaler when there is one, and passes the data through otherwise. */
  function Standardize(scaler: Option<Scaler>, a: NdArray): Result<NdArray> {
    if scaler.Some? then Transform(scaler.value, a) else Ok(a)
  }

  /** The static-compressor query before it reaches the index: compressed, then standardised
      when the reference has a scaler (the data recorded as `compressed_data`). */
  function CompressedQuery(ref: Reference, compressor: Compressor, data: NdArray)
    : Result<NdArray>
  {
    Standardize(ref.scaler, compressor(data))
  }

  /** What `ABCAlgorithm.__init__` leaves behind: the (possibly standardised) training
      features with their column count, the training parameters with theirs, and the scaler. */
  datatype Reference = Reference(data: seq<Row>, width: nat, params: seq<Row>, paramWidth: nat,
                                 scaler: Option<Scaler>)
  {
    /** Both tables rectangular, one parameter row per feature row, and a scaler fitted on
        the feature columns. */
    predicate Valid() {
      && Rectangular(data, width) && Rectangular(params, paramWidth)
      && |data| == |params|
      && (scaler.Some? ==> scaler.value.width == width)
    }

    /** `num_params`: the number of columns of the training parameters, so every parameter
        row of a valid table has that many entries. */
    function NumParams(): (q: nat)
      ensures Valid() ==> forall i :: 0 <= i < |params| ==> |params[i]| == q
    {
      paramWidth
    }
  }

  /** `ABCAlgorithm.__init__`: both tables must be two-dimensional with equally many rows; when
      asked, a scaler is fitted on the features and the features are replaced by their
      standardised values. */
  function CheckReference(trainData: NdArray, trainParams: NdArray, standardize: bool,
                          fit: Fitter): (r: Result<Reference>)
    ensures !trainData.Matrix? ==> r == Err(DataNotTwoDimensional)
    ensures trainData.Matrix? && !trainParams.Matrix? ==> r == Err(ParamsNotTwoDimensional)
    ensures (trainData.Matrix? && trainParams.Matrix? &&
             |trainData.rows| != |trainParams.rows|) ==> r == Err(RowCountMismatch)
    ensures r.Ok? <==> trainData.Matrix? && trainParams.Matrix? &&
                       |trainData.rows| == |trainParams.rows|
    ensures r.Ok? ==> r.value.Valid()
    ensures r.Ok? ==> r.value.width == trainData.width && r.value.params == trainParams.rows &&
                      r.value.NumParams() == trainParams.width
    ensures r.Ok? && !standardize ==> r.value.scaler == None && r.value.data == trainData.rows
    ensures r.Ok? && standardize ==>
              r.value.scaler == Some(Scaler(trainData.width, fit(trainData.rows))) &&
              r.value.data == MapRows(fit(trainData.rows), trainData.rows)
  {
    if !trainData.Matrix? then Err(DataNotTwoDimensional)
    else if !trainParams.Matrix? then Err(ParamsNotTwoDimensional)
    else if |trainData.rows| != |trainParams.rows| then Err(RowCountMismatch)
    else if standardize then
      var f := fit(trainData.rows);
      var data := MapRows(f, trainData.rows);
      assert Rectangular(data, trainData.width);
      Ok(Reference(data, trainData.width, trainParams.rows, trainParams.width,
                   Some(Scaler(trainData.width, f))))
    else
      Ok(Reference(trainData.rows, trainData.width, trainParams.rows, trainParams.width, None))
  }

  /** The query `NearestNeighborAlgorithm.sample` sends to the spatial index: the data made at
      least two-dimensional, then standardised when the reference has a scaler. */
  function PreparedQuery(ref: Reference, data: NdArray): (r: Result<NdArray>)
    requires ref.Valid()
    ensures r.Ok? ==> r.value.Matrix?
    ensures ref.scaler.None? ==> r == Ok(AtLeast2d(data))
    ensures ref.scaler.Some? ==> r == Transform(ref.scaler.value, AtLeast2d(data))
  {
    Standardize(ref.scaler, AtLeast2d(data))
  }

  /** `NearestNeighborAlgorithm.sample`: the `k` nearest training rows of every observation,
      returned as their parameter rows with the indices and distances. */
  function NearestSample(ref: Reference, data: NdArray, k: int): (r: Result<Neighbours>)
    requires ref.Valid()
    ensures PreparedQuery(ref, data).Err? ==> r == Err(PreparedQuery(ref, data).error)
    ensures r.Ok? <==> PreparedQuery(ref, data).Ok? && k >= 1 &&
                       PreparedQuery(ref, data).value.width == ref.width &&
                       (|PreparedQuery(ref, data).value.rows| == 0 || k <= |ref.data|)
    ensures r.Ok? ==> IsAnswer(ref.data, ref.width, ref.params,
                               PreparedQuery(ref, data).value.rows, k, r.value)
    ensures r.Ok? ==> forall i, j :: 0 <= i < |r.value.samples| && 0 <= j < k ==>
                        |r.value.samples[i][j]| == ref.NumParams()
  {
    var q := PreparedQuery(ref, data);
    if q.Err? then Err(q.error)
    else
      var res := Query(ref.data, ref.width, ref.params, q.value.rows, q.value.width, k);
      if res.Ok? then
        forall i, j | 0 <= i < |res.value.samples| && 0 <= j < k
          ensures |res.value.samples[i][j]| == ref.NumParams()
        {
          assert res.value.indices[i][j] < |ref.params|;
        }
        res
      else res
  }

  /** The row the index compares with the training features: `x` standardised when the
      reference has a scaler. */
  function PreparedRow(ref: Reference, x: Row): Row {
    if ref.scaler.Some? then ref.scaler.value.apply(x) else x
  }

  /** Exact self-match: an observation whose prepared form equals training row `t` (with
      standardisation on, an observation equal to the raw training row) gets a first neighbour
      at distance zero whose stored features are that prepared observation. */
  lemma NearestSelfMatch(ref: Reference, x: Row, t: nat, k: int)
    requires ref.Valid() && |x| == ref.width
    requires t < |ref.data| && ref.data[t] == PreparedRow(ref, x) && 1 <= k <= |ref.data|
    ensures NearestSample(ref, Vector(x), k).Ok?
    ensures NearestSample(ref, Vector(x), k).value.distances[0][0] == 0.0
    ensures ref.data[NearestSample(ref, Vector(x), k).value.indices[0][0]] == PreparedRow(ref, x)
  {
    var q := PreparedQuery(ref, Vector(x)).value;
    assert q.rows == [PreparedRow(ref, x)];
    var n := NearestSample(ref, Vector(x), k).value;
    SelfMatch(ref.data, PreparedRow(ref, x), k, n.indices[0], t);
  }

  /** Exact self-match from the constructor: querying the sampler built from `trainData` with
      its own training row `t` returns, first, a stored row equal to row `t`'s stored form, at
      distance zero, with or without standardisation. */
  lemma TrainingRowSelfMatch(trainData: NdArray, trainParams: NdArray, standardize: bool,
                             fit: Fitter, ref: Reference, t: nat, k: int)
    requires CheckReference(trainData, trainParams, standardize, fit) == Ok(ref)
    requires trainData.Matrix? && t < |trainData.rows| && 1 <= k <= |trainData.rows|
    ensures NearestSample(ref, Vector(trainData.rows[t]), k).Ok?
    ensures NearestSample(ref, Vector(trainData.rows[t]), k).value.distances[0][0] == 0.0
    ensures ref.data[NearestSample(ref, Vector(trainData.rows[t]), k).value.indices[0][0]]
            == ref.data[t]
  {
    var x := trainData.rows[t];
    assert ref.data[t] == PreparedRow(ref, x);
    NearestSelfMatch(ref, x, t, k);
  }

  /** The nearest-neighbour ABC sampler (`NearestNeighborAlgorithm`): the reference table its
      constructor checked (training features, parameters and scaler). The spatial index built at
      construction is not kept: queries are answered from the table itself. */
  class NearestNeighborSampler {
    var table: Reference

    ghost predicate Valid()
      reads this
    {
      table.Valid()
    }

    /** Stores a reference table that `CheckReference` has produced. */
    constructor FromReference(ref: Reference)
      requires ref.Valid()
      ensures Valid() && table == ref
    {
      table := ref;
    }

    /** `NearestNeighborAlgorithm(train_data, train_params, standardize=True)`: fails exactly
        when the reference table is malformed. */
    static method New(trainData: NdArray, trainParams: NdArray, fit: Fitter,
                      standardize: bool := true)
      returns (r: Result<NearestNeighborSampler>)
      ensures r.Err? ==> CheckReference(trainData, trainParams, standardize, fit) == Err(r.error)
      ensures r.Ok? ==> fresh(r.value) && r.value.Valid() &&
                        Ok(r.value.table) == CheckReference(trainData, trainParams, standardize, fit)
    {
      var ref := CheckReference(trainData, trainParams, standardize, fit);
      if ref.Err? {
        return Err(ref.error);
      }
      var s := new NearestNeighborSampler.FromReference(ref.value);
      return Ok(s);
    }

    /** `sample`: every observation's `k` nearest training rows, as parameter rows of
        `num_params` values each. */
    function Sample(data: NdArray, k: int): (r: Result<Neighbours>)
      reads this
      requires Valid()
      ensures r.Ok? <==> PreparedQuery(table, data).Ok? && k >= 1 &&
                         PreparedQuery(table, data).value.width == table.width &&
                         (|PreparedQuery(table, data).value.rows| == 0 || k <= |table.data|)
      ensures r.Ok? ==> IsAnswer(table.data, table.width, table.params,
                                 PreparedQuery(table, data).value.rows, k, r.value)
      ensures r.Ok? ==> forall i, j :: 0 <= i < |r.value.samples| && 0 <= j < k ==>
                          |r.value.samples[i][j]| == table.NumParams()
    {
      NearestSample(table, data, k)
    }
  }

  /** Number of samples of a collection (`len`), or `None` for a scalar, which is not one. */
  function NumSamples(a: NdArray): Option<nat> {
    match a
    case Scalar(_) => None
    case Vector(v) => Some(|v|)
    case Matrix(rows, _) => Some(|rows|)
  }

  /** The input validation of the linear regression's `fit`: the features form a matrix with
      at least one row and one column, and the targets are a collection with one entry per
      feature row (and at least one column when they form a matrix). */
  predicate RegressionInputValid(x: NdArray, y: NdArray) {
    && x.Matrix? && x.rows != [] && x.width > 0
    && NumSamples(y) == Some(|x.rows|)
    && (y.Matrix? ==> y.width > 0)
  }

  /** The regression fit refuses exactly: features that are not a matrix, a matrix without rows
      or columns, scalar targets, a target matrix without columns, and targets whose count
      differs from the feature rows. */
  lemma RegressionInputCases(x: NdArray, y: NdArray)
    ensures !x.Matrix? ==> !RegressionInputValid(x, y)
    ensures x.Matrix? && (x.rows == [] || x.width == 0) ==> !RegressionInputValid(x, y)
    ensures y.Scalar? ==> !RegressionInputValid(x, y)
    ensures x.Matrix? && y.Matrix? && |x.rows| != |y.rows| ==> !RegressionInputValid(x, y)
    ensures x.Matrix? && y.Vector? && |x.rows| != |y.v| ==> !RegressionInputValid(x, y)
    ensures y.Matrix? && y.width == 0 ==> !RegressionInputValid(x, y)
    ensures x.Matrix? && x.rows != [] && x.width > 0 && y.Matrix? && |y.rows| == |x.rows| &&
            y.width > 0
            ==> RegressionInputValid(x, y)
    ensures x.Matrix? && x.rows != [] && x.width > 0 && y.Vector? && |y.v| == |x.rows| ==>
              RegressionInputValid(x, y)
  {
  }

  /** What the static-compressor sampler returns: the neighbours, and the data recorded under
      `compressed_data` (compressed, then standardised once). */
  datatype CompressedSample = CompressedSample(neighbours: Neighbours, compressedData: NdArray)

  /** `StaticCompressorNearestNeighborAlgorithm.sample` as the source writes it: the query is
      compressed and standardised, then handed to the nearest-neighbour sample, which
      standardises it a second time. */
  function StaticSampleAsWritten(ref: Reference, compressor: Compressor, data: NdArray, k: int)
    : (r: Result<CompressedSample>)
    requires ref.Valid()
    ensures CompressedQuery(ref, compressor, data).Err? ==>
              r == Err(CompressedQuery(ref, compressor, data).error)
    ensures r.Ok? <==> CompressedQuery(ref, compressor, data).Ok? &&
                       NearestSample(ref, CompressedQuery(ref, compressor, data).value, k).Ok?
    ensures CompressedQuery(ref, compressor, data).Ok? &&
            NearestSample(ref, CompressedQuery(ref, compressor, data).value, k).Err? ==>
              r == Err(NearestSample(ref, CompressedQuery(ref, compressor, data).value, k).error)
    ensures r.Ok? ==> CompressedQuery(ref, compressor, data).Ok? &&
                      r.value.compressedData == CompressedQuery(ref, compressor, data).value
    ensures r.Ok? ==> PreparedQuery(ref, r.value.compressedData).Ok? &&
                      PreparedQuery(ref, r.value.compressedData).value.width == ref.width &&
                      IsAnswer(ref.data, ref.width, ref.params,
                               PreparedQuery(ref, r.value.compressedData).value.rows, k,
                               r.value.neighbours)
  {
    var c := CompressedQuery(ref, compressor, data);
    if c.Err? then Err(c.error)
    else
      var n := NearestSample(ref, c.value, k);
      if n.Err? then Err(n.error) else Ok(CompressedSample(n.value, c.value))
  }

  /** The static-compressor sample with the query standardised once, as the training features
      were: the index is queried with exactly the data recorded as `compressed_data`. */
  function StaticSample(ref: Reference, compressor: Compressor, data: NdArray, k: int)
    : (r: Result<CompressedSample>)
    requires ref.Valid()
    ensures CompressedQuery(ref, compressor, data).Err? ==>
              r == Err(CompressedQuery(ref, compressor, data).error)
    ensures r.Ok? <==> CompressedQuery(ref, compressor, data).Ok? && k >= 1 &&
                       AtLeast2d(CompressedQuery(ref, compressor, data).value).width == ref.width &&
                       (|AtLeast2d(CompressedQuery(ref, compressor, data).value).rows| == 0 ||
                        k <= |ref.data|)
    ensures r.Ok? ==> r.value.compressedData == CompressedQuery(ref, compressor, data).value
    ensures r.Ok? ==> IsAnswer(ref.data, ref.width, ref.params,
                               AtLeast2d(r.value.compressedData).rows, k, r.value.neighbours)
  {
    var raw := compressor(data);
    var c := CompressedQuery(ref, compressor, data);
    if c.Err? then Err(c.error)
    else
      assert PreparedQuery(ref, raw) == Ok(AtLeast2d(c.value));
      var n := NearestSample(ref, raw, k);
      if n.Err? then Err(n.error) else Ok(CompressedSample(n.value, c.value))
  }

  /** Without a scaler the two versions agree, so the default linear-regression sampler (which
      does not standardise) is unaffected. */
  lemma StaticSampleAgreeWithoutScaler(ref: Reference, compressor: Compressor, data: NdArray,
                                       k: int)
    requires ref.Valid() && ref.scaler.None?
    ensures StaticSampleAsWritten(ref, compressor, data, k) == StaticSample(ref, compressor, data, k)
  {
    var raw := compressor(data);
    assert Standardize(ref.scaler, raw) == Ok(raw);
    assert PreparedQuery(ref, raw) == PreparedQuery(ref, AtLeast2d(raw));
  }

  /** Exact self-match for the corrected sample: a query whose compressed form is the
      compressed training row `c` of row `t` (so that the stored, standardised row `t` is `c`
      prepared) gets a first neighbour at distance zero. */
  lemma StaticSelfMatch(ref: Reference, compressor: Compressor, data: NdArray, c: Row, t: nat,
                        k: int)
    requires ref.Valid() && |c| == ref.width && compressor(data) == Matrix([c], ref.width)
    requires t < |ref.data| && ref.data[t] == PreparedRow(ref, c) && 1 <= k <= |ref.data|
    ensures StaticSample(ref, compressor, data, k).Ok?
    ensures StaticSample(ref, compressor, data, k).value.neighbours.distances[0][0] == 0.0
  {
    var raw := compressor(data);
    if ref.scaler.Some? {
      assert MapRows(ref.scaler.value.apply, [c]) == [PreparedRow(ref, c)];
    }
    assert Standardize(ref.scaler, raw).value.rows == [PreparedRow(ref, c)];
    var r := StaticSample(ref, compressor, data, k).value;
    SelfMatch(ref.data, PreparedRow(ref, c), k, r.neighbours.indices[0], t);
  }

  /** What the transform of a standard scaler fitted on the one-column table [[0], [4]]
      (mean 2, scale 2) does to the three rows the counterexample needs. */
  predicate FittedOnZeroFour(f: RowMap) {
    f([0.0]) == [-1.0] && f([4.0]) == [1.0] && f([1.0]) == [-0.5]
  }

  /** A transform with that behaviour: centre on 2 and divide by 2. */
  function CentreTwoScaleTwoRow(r: Row): (s: Row)
    ensures |s| == |r|
    ensures forall i :: 0 <= i < |r| ==> s[i] == (r[i] - 2.0) / 2.0
  {
    seq(|r|, i requires 0 <= i < |r| => (r[i] - 2.0) / 2.0)
  }

  function CentreTwoScaleTwo(): RowMap {
    CentreTwoScaleTwoRow
  }

  lemma CentreOne(x: real)
    ensures CentreTwoScaleTwo()([x]) == [(x - 2.0) / 2.0]
  {
    var r := CentreTwoScaleTwoRow([x]);
    assert |r| == 1 && r[0] == (x - 2.0) / 2.0;
  }

  /** The centre-2, scale-2 transform is one with the counterexample's behaviour, so the
      lemmas below are not vacuous. */
  lemma CentreTwoScaleTwoFits()
    ensures FittedOnZeroFour(CentreTwoScaleTwo())
  {
    CentreOne(0.0);
    CentreOne(4.0);
    CentreOne(1.0);
  }

  /** The reference table of the counterexample: stored features [[-1], [1]] (the standardised
      [[0], [4]]) and parameters [[0], [1]]. */
  function CounterexampleTable(f: RowMap): (ref: Reference)
    ensures ref.Valid()
  {
    Reference([[-1.0], [1.0]], 1, [[0.0], [1.0]], 1, Some(Scaler(1, f)))
  }

  /** Building the reference with standardisation from training features [[0], [4]] and
      parameters [[0], [1]] stores the standardised features [[-1], [1]]. */
  lemma CounterexampleReference(f: RowMap, fit: Fitter)
    requires FittedOnZeroFour(f) && fit([[0.0], [4.0]]) == f
    ensures CheckReference(Matrix([[0.0], [4.0]], 1), Matrix([[0.0], [1.0]], 1), true, fit)
            == Ok(CounterexampleTable(f))
  {
    var m := MapRows(f, [[0.0], [4.0]]);
    assert m == [[-1.0], [1.0]];
  }

  /** The distances between the counterexample's stored features and the two standardised
      versions of the observation. */
  lemma CounterexampleDistances()
    ensures SqDist([-1.0], [-0.5]) == 0.25 && SqDist([1.0], [-0.5]) == 2.25
    ensures SqDist([1.0], [1.0]) == 0.0 && SqDist([-1.0], [1.0]) == 4.0
  {
    assert [-1.0][1..] == [] && [1.0][1..] == [] && [-0.5][1..] == [];
  }

  /** The as-written sample queries the index with the observation standardised twice: [[4]]
      becomes [[1]] and then [[-0.5]]. */
  lemma AsWrittenQuery(f: RowMap, compressor: Compressor)
    requires FittedOnZeroFour(f) && compressor(Matrix([[4.0]], 1)) == Matrix([[4.0]], 1)
    ensures var r := StaticSampleAsWritten(CounterexampleTable(f), compressor, Matrix([[4.0]], 1), 1);
            r.Ok? && PreparedQuery(CounterexampleTable(f), r.value.compressedData).Ok? &&
            PreparedQuery(CounterexampleTable(f), r.value.compressedData).value.rows == [[-0.5]] &&
            IsAnswer([[-1.0], [1.0]], 1, [[0.0], [1.0]], [[-0.5]], 1, r.value.neighbours)
  {
    var ref := CounterexampleTable(f);
    assert MapRows(f, [[4.0]]) == [[1.0]];
    var once := Standardize(ref.scaler, Matrix([[4.0]], 1)).value;
    assert once == Matrix([[1.0]], 1);
    assert MapRows(f, [[1.0]]) == [[-0.5]];
  }

  /** The single-standardisation sample queries the index with the observation standardised
      once: [[4]] becomes [[1]]. */
  lemma SingleQuery(f: RowMap, compressor: Compressor)
    requires FittedOnZeroFour(f) && compressor(Matrix([[4.0]], 1)) == Matrix([[4.0]], 1)
    ensures var r := StaticSample(CounterexampleTable(f), compressor, Matrix([[4.0]], 1), 1);
            r.Ok? && AtLeast2d(r.value.compressedData).rows == [[1.0]] &&
            IsAnswer([[-1.0], [1.0]], 1, [[0.0], [1.0]], [[1.0]], 1, r.value.neighbours)
  {
    var ref := CounterexampleTable(f);
    assert MapRows(f, [[4.0]]) == [[1.0]];
    var once := Standardize(ref.scaler, Matrix([[4.0]], 1)).value;
    assert AtLeast2d(once).rows == [[1.0]];
  }

  /** The answer to a single query row with one neighbour: that row's nearest index and its
      distance. */
  lemma OnlyAnswer(ref: seq<Row>, params: seq<Row>, x: Row, n: Neighbours)
    requires IsReference(ref, |x|, params) && IsAnswer(ref, |x|, params, [x], 1, n)
    ensures |n.indices| == 1 && |n.distances| == 1 && |n.distances[0]| == 1
    ensures IsKNearest(ref, x, 1, n.indices[0])
    ensures n.distances[0][0] == SqDist(ref[n.indices[0][0]], x)
  {
    assert [x][0] == x;
  }

  /** On the stored features [[-1], [1]], the query [-0.5] is nearest to row 0, at a positive
      distance. */
  lemma NearestToMinusHalf(n: Neighbours)
    requires IsAnswer([[-1.0], [1.0]], 1, [[0.0], [1.0]], [[-0.5]], 1, n)
    ensures |n.indices| == 1 && |n.indices[0]| == 1 && n.indices[0][0] == 0
    ensures |n.distances| == 1 && |n.distances[0]| == 1 && n.distances[0][0] > 0.0
  {
    CounterexampleDistances();
    OnlyAnswer([[-1.0], [1.0]], [[0.0], [1.0]], [-0.5], n);
    UniqueClosestFirst([[-1.0], [1.0]], [-0.5], 1, n.indices[0], 0);
  }

  /** On the same stored features, the query [1] is nearest to row 1, at distance zero. */
  lemma NearestToOne(n: Neighbours)
    requires IsAnswer([[-1.0], [1.0]], 1, [[0.0], [1.0]], [[1.0]], 1, n)
    ensures |n.indices| == 1 && |n.indices[0]| == 1 && n.indices[0][0] == 1
    ensures |n.distances| == 1 && |n.distances[0]| == 1 && n.distances[0][0] == 0.0
  {
    CounterexampleDistances();
    OnlyAnswer([[-1.0], [1.0]], [[0.0], [1.0]], [1.0], n);
    UniqueClosestFirst([[-1.0], [1.0]], [1.0], 1, n.indices[0], 1);
  }

  /** The double standardisation loses the exact self-match. On the table of
      `CounterexampleReference`, the observation [[4]], identical to training row 1, is
      standardised to [[1]] and then again to [[-0.5]], so the as-written sample returns row 0
      at a positive distance. */
  lemma DoubleStandardizationMisses(f: RowMap, compressor: Compressor)
    requires FittedOnZeroFour(f) && compressor(Matrix([[4.0]], 1)) == Matrix([[4.0]], 1)
    ensures StaticSampleAsWritten(CounterexampleTable(f), compressor, Matrix([[4.0]], 1), 1).Ok?
    ensures StaticSampleAsWritten(CounterexampleTable(f), compressor, Matrix([[4.0]], 1), 1)
              .value.neighbours.indices[0][0] == 0
    ensures StaticSampleAsWritten(CounterexampleTable(f), compressor, Matrix([[4.0]], 1), 1)
              .value.neighbours.distances[0][0] > 0.0
  {
    AsWrittenQuery(f, compressor);
    NearestToMinusHalf(
      StaticSampleAsWritten(CounterexampleTable(f), compressor, Matrix([[4.0]], 1), 1)
        .value.neighbours);
  }

  /** On the same table and observation, the sample that standardises once returns training
      row 1 at distance zero. */
  lemma SingleStandardizationMatches(f: RowMap, compressor: Compressor)
    requires FittedOnZeroFour(f) && compressor(Matrix([[4.0]], 1)) == Matrix([[4.0]], 1)
    ensures StaticSample(CounterexampleTable(f), compressor, Matrix([[4.0]], 1), 1).Ok?
    ensures StaticSample(CounterexampleTable(f), compressor, Matrix([[4.0]], 1), 1)
              .value.neighbours.indices[0][0] == 1
    ensures StaticSample(CounterexampleTable(f), compressor, Matrix([[4.0]], 1), 1)
              .value.neighbours.distances[0][0] == 0.0
  {
    SingleQuery(f, compressor);
    NearestToOne(StaticSample(CounterexampleTable(f), compressor, Matrix([[4.0]], 1), 1)
                   .value.neighbours);
  }

  /** The nearest-neighbour sampler behind a fixed compressor
      (`StaticCompressorNearestNeighborAlgorithm`): the training data are compressed once, at
      construction, and every query is compressed once per sample. */
  class StaticCompressorSampler {
    var compressor: Compressor
    var rawTrainData: NdArray
    var table: Reference

    ghost predicate Valid()
      reads this
    {
      table.Valid()
    }

    constructor FromReference(compressor: Compressor, rawTrainData: NdArray, ref: Reference)
      requires ref.Valid()
      ensures Valid() && table == ref
      ensures this.compressor == compressor && this.rawTrainData == rawTrainData
    {
      this.compressor := compressor;
      this.rawTrainData := rawTrainData;
      table := ref;
    }

    /** `StaticCompressorNearestNeighborAlgorithm(train_data, train_params, compressor,
        standardize=True)`: the reference table is built from the compressed training data. */
    static method New(trainData: NdArray, trainParams: NdArray, compressor: Compressor,
                      fit: Fitter, standardize: bool := true)
      returns (r: Result<StaticCompressorSampler>)
      ensures r.Err? ==>
                CheckReference(compressor(trainData), trainParams, standardize, fit) == Err(r.error)
      ensures r.Ok? ==> fresh(r.value) && r.value.Valid() &&
                        r.value.compressor == compressor && r.value.rawTrainData == trainData &&
                        Ok(r.value.table) ==
                          CheckReference(compressor(trainData), trainParams, standardize, fit)
    {
      var ref := CheckReference(compressor(trainData), trainParams, standardize, fit);
      if ref.Err? {
        return Err(ref.error);
      }
      var s := new StaticCompressorSampler.FromReference(compressor, trainData, ref.value);
      return Ok(s);
    }

    /** `FearnheadAlgorithm(train_data, train_params, standardize=False)`: a regression of the
        parameters on the raw features is fitted once, and its prediction function becomes the
        static compressor. The fit validates its tables before any check of the reference
        table runs. */
    static method Fearnhead(trainData: NdArray, trainParams: NdArray,
                            fitRegression: RegressionFitter, fit: Fitter,
                            standardize: bool := false)
      returns (r: Result<StaticCompressorSampler>)
      ensures !RegressionInputValid(trainData, trainParams) ==> r == Err(RegressionInputInvalid)
      ensures RegressionInputValid(trainData, trainParams) && r.Err? ==>
                CheckReference(fitRegression(trainData, trainParams)(trainData), trainParams,
                               standardize, fit) == Err(r.error)
      ensures r.Ok? ==> RegressionInputValid(trainData, trainParams)
      ensures r.Ok? ==> fresh(r.value) && r.value.Valid() &&
                        r.value.compressor == fitRegression(trainData, trainParams) &&
                        r.value.rawTrainData == trainData &&
                        Ok(r.value.table) ==
                          CheckReference(fitRegression(trainData, trainParams)(trainData),
                                         trainParams, standardize, fit)
    {
      if !RegressionInputValid(trainData, trainParams) {
        return Err(RegressionInputInvalid);
      }
      var predictor := fitRegression(trainData, trainParams);
      r := New(trainData, trainParams, predictor, fit, standardize);
    }

    /** `get_compressor`: only the call without data is allowed, and it returns the compressor
        captured at construction. */
    function GetCompressor(data: Option<NdArray>): (r: Result<Compressor>)
      reads this
      ensures r.Ok? <==> data.None?
      ensures r.Ok? ==> r.value == compressor
      ensures r.Err? ==> r.error == CompressorDataNotNone
    {
      if data.Some? then Err(CompressorDataNotNone) else Ok(compressor)
    }

    /** `sample`: the query is passed once through the captured compressor and once through
        the scaler, and the index is queried with exactly that compressed data. */
    function Sample(data: NdArray, k: int): (r: Result<CompressedSample>)
      reads this
      requires Valid()
      ensures r.Ok? ==> CompressedQuery(table, compressor, data).Ok? &&
                        r.value.compressedData == CompressedQuery(table, compressor, data).value
      ensures r.Ok? ==> AtLeast2d(r.value.compressedData).width == table.width &&
                        IsAnswer(table.data, table.width, table.params,
                                 AtLeast2d(r.value.compressedData).rows, k, r.value.neighbours)
      ensures r.Err? ==> CompressedQuery(table, compressor, data).Err? || k < 1 ||
                         AtLeast2d(CompressedQuery(table, compressor, data).value).width
                           != table.width ||
                         k > |table.data|
    {
      var g := GetCompressor(None);
      StaticSample(table, g.value, data, k)
    }
  }
}
