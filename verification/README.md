# dist-keras distributed core, modelled in Dafny

dist-keras trains an ensemble of Keras models on a Spark dataframe. The
controller (`EnsembleTrainer`) repartitions the dataset into `num_models`
partitions. Each partition's task (`EnsembleTrainerWorker.train`) rebuilds the
shared initial model from its JSON description and drains its rows into a
feature list `X` and a label list `Y`. It then compiles and fits the model for
one epoch and yields one (history, trained-model JSON) pair. A separate
transformer (`LabelVectorTransformer`) is meant to extend every row with a
one-hot vector (`to_vector`) of its integer label. The model takes that
intended append as the row the code builds; see `TransformRow` under
"## Left out" for how line 51 of the code actually constructs it.

The model has four modules:

- `Rows` (rows.dfy): a row is an ordered sequence of named fields. `Access`
  is `row[name]`; it returns `None` for a missing name, and both loops treat
  that as the `TypeError` they swallow (see `Row` under "## Left out" for
  what the code does instead).
- `Vectors` (vectors.dfy): `to_vector` as a method that allocates a zeroed
  array and overwrites one slot. `OneHot` is its specification, and lemmas
  prove its shape.
- `LabelVectorization` (label_vectorizer.dfy): `_transform` as a loop that
  stops at the first failing row. `Transformed` is its functional
  specification, and lemmas cover the transformed prefix, the first failure
  and the shape of each new row.
- `Ensemble` (ensemble.dfy): the worker's accumulation loop, with the label
  read after the features are appended. Also the worker's single result and
  the controller's collection of one result per partition. The Keras
  operations are the function-valued fields of `Keras<M, H>`, so only the
  data flow around them is modelled.

Two consequences of the code that the model keeps:

- A `TypeError` does not drop only the offending record. It ends the loop, so
  every later row of the partition is lost too.
- `_transform` keeps the input order of the rows.

## Model

| member | source | states |
|---|---|---|
| `Rows.AccessFindsFirst` | distkeras/distributed.py:49 | `row[name]` fails exactly when no field has that name; otherwise it yields the value of the first field with that name |
| `Rows.AccessAppend` | distkeras/distributed.py:51 | appending a field keeps what every existing name reads; a name that was absent now reads the appended value |
| `Vectors.OneHotIsOneHot` | distkeras/distributed.py:24-28 | for 0 <= x < n, the one-hot vector has length n, 1.0 at x, 0.0 everywhere else, and exactly one nonzero entry |
| `Vectors.ToVector` | distkeras/distributed.py:24-28 | a newly allocated zeroed array with slot x overwritten: length n, 1.0 at x and 0.0 elsewhere, and equal to `OneHot(x, n)` |
| `LabelVectorization.Succeeding` | distkeras/distributed.py:46-55 | the count of rows before the first failing one: at most the input length, every earlier row succeeds, and the row at that index fails |
| `LabelVectorization.TransformedIsPrefix` | distkeras/distributed.py:46-57 | the output has exactly `Succeeding` rows (so no more than the input), and output row i is the transformation of input row i |
| `LabelVectorization.TransformedWithoutFailure` | distkeras/distributed.py:48-53 | when no row fails and every label is a valid index, the output has as many rows as the input, in input order, row i transformed from row i |
| `LabelVectorization.TransformedStopsAtFirstFailure` | distkeras/distributed.py:47-55 | if row k is the first failure and the rows before it hold valid labels, the output has exactly k rows, and output row i is the transformation of input row i for i < k; rows k onward are dropped and no error escapes |
| `LabelVectorization.TransformedRowShape` | distkeras/distributed.py:49-51 | a new row is the original fields in order plus one field named `outputColumn`, holding a vector of dimension `outputDim` with 1.0 at the label and exactly one nonzero entry; original names read as before, and the new name reads the vector |
| `LabelVectorization.TransformedIsUnique` | distkeras/distributed.py:46-57 | conversely, any list of rows that transforms the input row by row and stops exactly at the first failing row equals `Transformed` |
| `LabelVectorization.TransformPartition` | distkeras/distributed.py:45-57 | the loop returns a prefix of the row-by-row transformation that stops exactly at the first failing row, and equals `Transformed` |
| `LabelVectorization.TransformAllWithoutFailure` | distkeras/distributed.py:59-60 | with no failing row anywhere and every label a valid index, the whole dataset is transformed row by row, with as many rows as went in |
| `Ensemble.Complete` | distkeras/distributed.py:113-120 | the count of rows read in full before the first failing one: every earlier row reads both fields, and the row at that index does not |
| `Ensemble.AccumulatedPairsRows` | distkeras/distributed.py:110-120 | `Y` has one label per complete row, and `X[i]`, `Y[i]` come from the same row i; `X` has one extra entry, that row's features, exactly when the first failure is on the label access |
| `Ensemble.AccumulatedWithoutFailure` | distkeras/distributed.py:110-118 | with no failing row, `X` and `Y` both have the partition's length, and entry i of each comes from row i |
| `Ensemble.AccumulatedAtFirstFailure` | distkeras/distributed.py:113-120 | if row k is the first failure: a failed features access leaves both lists with k entries; a failed label access leaves k labels and k+1 features, the last from row k |
| `Ensemble.AccumulatedIsUnique` | distkeras/distributed.py:110-120 | conversely, any `X` and `Y` that pair up the complete rows and end as the first failing row dictates equal `Accumulated` |
| `Ensemble.Accumulate` | distkeras/distributed.py:110-120 | the loop pairs `X[i]` and `Y[i]` with row i, and `X` is as long as `Y` or one longer; the extra feature exists exactly when the next row failed on its label; it equals `Accumulated` |
| `Ensemble.Train` | distkeras/distributed.py:106-129 | when `fit` returns, a partition yields exactly one pair: the history and the JSON of the model built from the shared description, compiled, and fitted on the accumulated `X`, `Y` |
| `Ensemble.OneResultPerPartition` | distkeras/distributed.py:89-97 | when every `fit` returns, the controller gets one result per partition; result i is the model trained on partition i from the shared description |

## Left out

- Keras `model_from_json`, `compile` with `RMSprop`, `fit` and `to_json`
  (distkeras/distributed.py:108, 122-127): a foreign library that does
  floating-point training. These are arbitrary functions passed in as
  `Keras<M, H>`, and `fit` always returns. The real `fit` raises when `X` is
  one entry longer than `Y` (a failed label read). The partition's task then
  fails and yields nothing. The model does not capture this, so its
  one-result-per-partition statements hold only when `fit` returns.
- `Trainer.__init__` and `Predictor.__init__` (distkeras/distributed.py:66,
  75) only call `to_json`. `EnsembleTrainer` receives the resulting string as
  `masterModel`.
- Spark `repartition`, `mapPartitions` and `collect`
  (distkeras/distributed.py:60, 91, 95): the partitions are an input
  (`seq<seq<Row>>`), and `collect` is taken to gather results in partition
  order. How the engine splits the rows, with what concurrency and which
  retries, is not modelled.
- `Row` and `DenseVector` are modelled as a sequence of named fields and a
  sequence of reals. With the `Row` class imported at
  distkeras/distributed.py:16, reading a missing name raises the
  `ValueError` of `__fields__.index`, not a `TypeError`. Neither
  `except TypeError` (distkeras/distributed.py:54, 119) catches it, so the
  partition's task fails instead of stopping quietly. `Rows.Access` returns
  `None` for a missing name, and the loops stop quietly on it as on a
  `TypeError`: that is how the model handles a missing field, not what the
  program does.
- `LabelVectorization.Label`: a label field that holds a non-integer value is
  modelled as the `TypeError` path. NumPy's own rules for indexing with such
  a value are not modelled.
- `LabelVectorization.TransformPartition`: requires that the labels the loop
  reaches lie in `[0, outputDim)`. NumPy's uncaught `IndexError` for labels
  of `outputDim` or more and below `-outputDim`, and its wrap-around for
  labels from `-outputDim` to -1, are not modelled.
- `LabelVectorization.TransformRow`, `LabelVectorization.Transformed` and
  `LabelVectorization.TransformAll` are defined for every integer label. For
  a label outside `[0, outputDim)` they produce an all-zero vector, whereas
  the code raises an uncaught `IndexError` for labels of `outputDim` or more
  and for labels below `-outputDim`. For labels from `-outputDim` to -1 it
  writes the slot counted from the end. Only the lemmas that require valid
  labels (`TransformedWithoutFailure`, `TransformedStopsAtFirstFailure`,
  `TransformedRowShape`, `TransformAllWithoutFailure`) and
  `TransformPartition` speak for the code.
- `LabelVectorization.TransformRow` reads line 51
  (distkeras/distributed.py:51) as the evidently intended starred append
  `Row(*names)(*values)`: the old fields in order, then the output field. As
  written, the list of names and the tuple of values are each passed as one
  argument. The engine's `Row` class then builds a row with a single
  element, the whole value tuple, whose one field "name" is the list of
  names. Reading an original field from that row does not give its old
  value. `Rows.AccessAppend` and `LabelVectorization.TransformedRowShape`
  describe the intended append. A `TypeError` raised while building the row
  is not modelled either, for example when `row.__fields__` is a tuple, as
  it is for rows made from a Row class.
- `np.asarray` (distkeras/distributed.py:117-118) runs inside the `try`, so
  it runs only when the loop drains the partition without a `TypeError`.
  After a swallowed `TypeError`, `fit` gets the raw Python lists instead.
  The model passes sequences to `fit` on both paths.
- `print(new_row)` (distkeras/distributed.py:52) is I/O.
- The abstract `Transformer.transform`, `Predictor.predict` and
  `Trainer.train` (distkeras/distributed.py:34-35, 68-69, 77-78) only raise
  `NotImplementedError`.
