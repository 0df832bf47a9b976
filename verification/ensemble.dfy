/** `EnsembleTrainer` and `EnsembleTrainerWorker`: one model replica is
    trained per partition and every partition yields one result. */
module Ensemble {
  import opened Rows

  /** The neural-network library, seen only through the operations the
      worker calls: `model_from_json`, `compile` (with its fixed loss,
      optimizer and metric), `fit` for one epoch (the history and the fitted
      model) and `to_json`. `M` is the library's model type and `H` its
      training history. */
  datatype Keras<!M, H> = Keras(
    fromJson: string -> M,
    compile: M -> M,
    fit: (M, seq<Value>, seq<Value>) -> (H, M),
    toJson: M -> string)

  /** The controller's configuration: the serialized initial model and the
      constructor's parameters. */
  datatype EnsembleTrainer = EnsembleTrainer(
    masterModel: string,
    numModels: int := 2,
    featuresColumn: string := "features",
    labelColumn: string := "label")

  /** What each partition's task captures. */
  datatype EnsembleTrainerWorker = EnsembleTrainerWorker(
    model: string, featuresColumn: string, labelColumn: string)

  /** How far one pass of the accumulation loop over a row gets: both
      fields read, only the features read (the label access raised
      TypeError), or nothing read (the features access raised TypeError). */
  datatype Reading = Both(features: Value, labelValue: Value) | FeaturesOnly(features: Value) | Neither

  function Read(w: EnsembleTrainerWorker, r: Row): Reading
  {
    match Access(r, w.featuresColumn)
    case None => Neither
    case Some(f) =>
      match Access(r, w.labelColumn)
      case None => FeaturesOnly(f)
      case Some(l) => Both(f, l)
  }

  /** The number of rows read in full before the first failing one. */
  function Complete(w: EnsembleTrainerWorker, rows: seq<Row>): (k: nat)
    ensures k <= |rows|
    ensures forall i :: 0 <= i < k ==> Read(w, rows[i]).Both?
    ensures k < |rows| ==> !Read(w, rows[k]).Both?
  {
    if rows == [] || !Read(w, rows[0]).Both? then 0
    else 1 + Complete(w, rows[1..])
  }

  /** The lists `X` and `Y` once the loop has drained the partition: each
      row contributes its features, then its label, and the first TypeError
      ends the loop with whatever was appended so far. */
  function Accumulated(w: EnsembleTrainerWorker, rows: seq<Row>): (seq<Value>, seq<Value>)
  {
    if rows == [] then ([], [])
    else match Read(w, rows[0])
      case Neither => ([], [])
      case FeaturesOnly(f) => ([f], [])
      case Both(f, l) =>
        var rest := Accumulated(w, rows[1..]);
        ([f] + rest.0, [l] + rest.1)
  }

  /** `X[i]` and `Y[i]` are the features and label of row i for every row
      before the first failure; a failure on the label access leaves `X` one
      element longer than `Y`, holding that row's features. */
  lemma {:induction false} AccumulatedPairsRows(w: EnsembleTrainerWorker, rows: seq<Row>)
    ensures var (X, Y) := Accumulated(w, rows); var k := Complete(w, rows);
      && |Y| == k
      && |X| == (if k < |rows| && Read(w, rows[k]).FeaturesOnly? then k + 1 else k)
      && (forall i :: 0 <= i < k ==> X[i] == Read(w, rows[i]).features && Y[i] == Read(w, rows[i]).labelValue)
      && (|X| > k ==> X[k] == Read(w, rows[k]).features)
  {
    if rows != [] && Read(w, rows[0]).Both? {
      AccumulatedPairsRows(w, rows[1..]);
    }
  }

  /** Without a failing row both lists have the partition's length. */
  lemma {:induction false} AccumulatedWithoutFailure(w: EnsembleTrainerWorker, rows: seq<Row>)
    requires forall i :: 0 <= i < |rows| ==> Read(w, rows[i]).Both?
    ensures |Accumulated(w, rows).0| == |rows| && |Accumulated(w, rows).1| == |rows|
    ensures forall i :: 0 <= i < |rows| ==>
              Read(w, rows[i]) == Both(Accumulated(w, rows).0[i], Accumulated(w, rows).1[i])
  {
    AccumulatedPairsRows(w, rows);
  }

  /** When row `k` is the first failure, both lists hold `k` entries if the
      features access failed, and `X` holds `k + 1` if the label access
      failed. */
  lemma AccumulatedAtFirstFailure(w: EnsembleTrainerWorker, rows: seq<Row>, k: nat)
    requires k < |rows| && !Read(w, rows[k]).Both?
    requires forall i :: 0 <= i < k ==> Read(w, rows[i]).Both?
    ensures |Accumulated(w, rows).1| == k
    ensures Access(rows[k], w.featuresColumn).None? ==> |Accumulated(w, rows).0| == k
    ensures Access(rows[k], w.featuresColumn).Some? ==>
              |Accumulated(w, rows).0| == k + 1 &&
              Accumulated(w, rows).0[k] == Access(rows[k], w.featuresColumn).value
  {
    AccumulatedPairsRows(w, rows);
  }

  /** Conversely, lists that pair up the complete rows and stop as the
      first failing row dictates are exactly `Accumulated`. */
  lemma {:induction false} AccumulatedIsUnique(w: EnsembleTrainerWorker, rows: seq<Row>, X: seq<Value>, Y: seq<Value>)
    requires |Y| <= |X| <= |Y| + 1 && |Y| <= |rows|
    requires forall i :: 0 <= i < |Y| ==> Read(w, rows[i]) == Both(X[i], Y[i])
    requires |X| == |Y| && |Y| < |rows| ==> Read(w, rows[|Y|]).Neither?
    requires |X| > |Y| ==> |Y| < |rows| && Read(w, rows[|Y|]) == FeaturesOnly(X[|Y|])
    ensures (X, Y) == Accumulated(w, rows)
  {
    if Y != [] {
      assert Read(w, rows[0]) == Both(X[0], Y[0]);
      var rest := Accumulated(w, rows[1..]);
      assert Accumulated(w, rows) == ([X[0]] + rest.0, [Y[0]] + rest.1);
      AccumulatedIsUnique(w, rows[1..], X[1..], Y[1..]);
      assert X == [X[0]] + X[1..] && Y == [Y[0]] + Y[1..];
    } else if X != [] {
      assert Read(w, rows[0]) == FeaturesOnly(X[0]);
      assert X == [X[0]];
    }
  }

  /** The accumulation loop of `train`: features are appended before the
      label is read, and the first TypeError ends the loop silently. */
  method Accumulate(w: EnsembleTrainerWorker, rows: seq<Row>) returns (X: seq<Value>, Y: seq<Value>)
    ensures |Y| <= |X| <= |Y| + 1 && |Y| <= |rows|
    ensures forall i :: 0 <= i < |Y| ==> Read(w, rows[i]) == Both(X[i], Y[i])
    ensures |X| == |Y| && |Y| < |rows| ==> Read(w, rows[|Y|]).Neither?
    ensures |X| > |Y| ==> |Y| < |rows| && Read(w, rows[|Y|]) == FeaturesOnly(X[|Y|])
    ensures (X, Y) == Accumulated(w, rows)
  {
    X, Y := [], [];
    var i := 0;
    while i < |rows|
      invariant i <= |rows|
      invariant |X| == |Y| == i
      invariant forall j :: 0 <= j < i ==> Read(w, rows[j]) == Both(X[j], Y[j])
    {
      var row := rows[i];
      var features := Access(row, w.featuresColumn);
      if features.None? {
        // TypeError on the features access: nothing of this row is kept.
        assert Read(w, row).Neither?;
        break;
      }
      X := X + [features.value];
      var labelCell := Access(row, w.labelColumn);
      if labelCell.None? {
        // TypeError on the label access: the features stay in X.
        assert Read(w, row) == FeaturesOnly(features.value);
        break;
      }
      assert Read(w, row) == Both(features.value, labelCell.value);
      Y := Y + [labelCell.value];
      i := i + 1;
    }
    AccumulatedIsUnique(w, rows, X, Y);
  }

  /** The single result of one partition, as a function of its rows. */
  function PartitionResult<M, H>(w: EnsembleTrainerWorker, keras: Keras<M, H>, rows: seq<Row>): (H, string)
  {
    var (X, Y) := Accumulated(w, rows);
    var (history, fitted) := keras.fit(keras.compile(keras.fromJson(w.model)), X, Y);
    (history, keras.toJson(fitted))
  }

  /** `EnsembleTrainerWorker.train`: deserialize the shared description,
      drain the partition, compile, fit and serialize. When `fit` returns,
      exactly one (history, model) pair is yielded, whatever the partition
      holds. */
  method Train<M, H>(w: EnsembleTrainerWorker, keras: Keras<M, H>, rows: seq<Row>)
    returns (results: seq<(H, string)>)
    ensures |results| == 1
    ensures results == [PartitionResult(w, keras, rows)]
  {
    var model := keras.fromJson(w.model);
    var X, Y := Accumulate(w, rows);
    model := keras.compile(model);
    var fitted := keras.fit(model, X, Y);
    results := [(fitted.0, keras.toJson(fitted.1))];
  }

  /** The worker every partition's task runs. */
  function WorkerOf(t: EnsembleTrainer): EnsembleTrainerWorker
  {
    EnsembleTrainerWorker(t.masterModel, t.featuresColumn, t.labelColumn)
  }

  /** `EnsembleTrainer.train` over the partitions the repartitioning
      produced: every partition's results, gathered in partition order. */
  function EnsembleTrain<M, H>(t: EnsembleTrainer, keras: Keras<M, H>, parts: seq<seq<Row>>): seq<(H, string)>
  {
    if parts == [] then []
    else [PartitionResult(WorkerOf(t), keras, parts[0])] + EnsembleTrain(t, keras, parts[1..])
  }

  /** When every `fit` returns, there is one result per partition, however
      many rows each holds: result `i` is the model trained on partition `i`
      from the shared initial model. */
  lemma {:induction false} OneResultPerPartition<M, H>(t: EnsembleTrainer, keras: Keras<M, H>, parts: seq<seq<Row>>)
    ensures |EnsembleTrain(t, keras, parts)| == |parts|
    ensures forall i :: 0 <= i < |parts| ==>
              EnsembleTrain(t, keras, parts)[i] == PartitionResult(WorkerOf(t), keras, parts[i])
  {
    if parts != [] {
      OneResultPerPartition(t, keras, parts[1..]);
    }
  }
}
