/** `LabelVectorTransformer`: every row gains a field holding the one-hot
    encoding of its integer label. */
module LabelVectorization {
  import opened Rows
  import Vectors

  /** The transformer's configuration, fixed when it is constructed. */
  datatype LabelVectorTransformer = LabelVectorTransformer(
    outputDim: nat,
    inputColumn: string := "label",
    outputColumn: string := "label_vectorized")

  /** The class index held by the row's input field; `None` when reading it
      raises TypeError (no such field, or a value that is not an integer). */
  function Label(t: LabelVectorTransformer, r: Row): Option<int>
  {
    match Access(r, t.inputColumn)
    case Some(Num(x)) => Some(x)
    case _ => None
  }

  /** The label, when there is one, is a valid index of the output vector.
      Larger or negative labels are outside this model. */
  predicate LabelInRange(t: LabelVectorTransformer, r: Row)
  {
    Label(t, r).Some? ==> 0 <= Label(t, r).value < t.outputDim
  }

  /** One pass of the loop body: the original fields followed by the
      output field, or `None` when the pass raises TypeError. */
  function TransformRow(t: LabelVectorTransformer, r: Row): Option<Row>
  {
    match Label(t, r)
    case None => None
    case Some(x) => Some(r + [Field(t.outputColumn, Vector(Vectors.OneHot(x, t.outputDim)))])
  }

  /** The number of rows before the first one whose pass fails. */
  function Succeeding(t: LabelVectorTransformer, rows: seq<Row>): (k: nat)
    ensures k <= |rows|
    ensures forall i :: 0 <= i < k ==> TransformRow(t, rows[i]).Some?
    ensures k < |rows| ==> TransformRow(t, rows[k]).None?
  {
    if rows == [] || TransformRow(t, rows[0]).None? then 0
    else 1 + Succeeding(t, rows[1..])
  }

  /** What `_transform` yields for one partition: rows are transformed in
      order until one fails, and the failure ends the partition silently. */
  function Transformed(t: LabelVectorTransformer, rows: seq<Row>): seq<Row>
  {
    if rows == [] then []
    else match TransformRow(t, rows[0])
      case None => []
      case Some(r) => [r] + Transformed(t, rows[1..])
  }

  /** The output is the transformed prefix of the input that ends at the
      first failing row. */
  lemma {:induction false} TransformedIsPrefix(t: LabelVectorTransformer, rows: seq<Row>)
    ensures |Transformed(t, rows)| == Succeeding(t, rows) <= |rows|
    ensures forall i :: 0 <= i < |Transformed(t, rows)| ==>
              TransformRow(t, rows[i]) == Some(Transformed(t, rows)[i])
  {
    if rows != [] && TransformRow(t, rows[0]).Some? {
      TransformedIsPrefix(t, rows[1..]);
    }
  }

  /** With no failing row, every row is transformed, in input order. */
  lemma {:induction false} TransformedWithoutFailure(t: LabelVectorTransformer, rows: seq<Row>)
    requires forall i :: 0 <= i < |rows| ==> TransformRow(t, rows[i]).Some?
    requires forall i :: 0 <= i < |rows| ==> LabelInRange(t, rows[i])
    ensures |Transformed(t, rows)| == |rows|
    ensures forall i :: 0 <= i < |rows| ==> TransformRow(t, rows[i]) == Some(Transformed(t, rows)[i])
  {
    TransformedIsPrefix(t, rows);
  }

  /** When row `k` is the first to fail and the rows before it hold valid
      labels, the output is the transformation of rows 0 to k-1 and nothing
      of rows k onward. */
  lemma TransformedStopsAtFirstFailure(t: LabelVectorTransformer, rows: seq<Row>, k: nat)
    requires k < |rows| && TransformRow(t, rows[k]).None?
    requires forall i :: 0 <= i < k ==> TransformRow(t, rows[i]).Some?
    requires forall i :: 0 <= i < k ==> LabelInRange(t, rows[i])
    ensures |Transformed(t, rows)| == k
    ensures forall i :: 0 <= i < k ==> TransformRow(t, rows[i]) == Some(Transformed(t, rows)[i])
  {
    TransformedIsPrefix(t, rows);
  }

  /** A transformed row keeps every original field, name and value, in
      order, and appends exactly one: the output column holding the one-hot
      vector of the label, of dimension `outputDim`. Reading any original
      name gives what it gave before; reading the output column, when the
      row did not already have one, gives the vector. */
  lemma TransformedRowShape(t: LabelVectorTransformer, r: Row)
    requires TransformRow(t, r).Some? && LabelInRange(t, r)
    ensures var r' := TransformRow(t, r).value;
      && |r'| == |r| + 1
      && r'[..|r|] == r
      && r'[|r|].name == t.outputColumn
      && r'[|r|].value.Vector?
      && |r'[|r|].value.entries| == t.outputDim
      && r'[|r|].value.entries[Label(t, r).value] == 1.0
      && Vectors.NonZeroCount(r'[|r|].value.entries) == 1
      && (forall name :: Access(r, name).Some? ==> Access(r', name) == Access(r, name))
      && (Access(r, t.outputColumn).None? ==> Access(r', t.outputColumn) == Some(r'[|r|].value))
  {
    var x := Label(t, r).value;
    var f := Field(t.outputColumn, Vector(Vectors.OneHot(x, t.outputDim)));
    Vectors.OneHotIsOneHot(x, t.outputDim);
    forall name | Access(r, name).Some? ensures Access(r + [f], name) == Access(r, name) {
      AccessAppend(r, f, name);
    }
    AccessAppend(r, f, t.outputColumn);
    assert (r + [f])[..|r|] == r;
  }

  /** Conversely, the transformed prefix that ends at the first failing row
      is exactly `Transformed`. */
  lemma {:induction false} TransformedIsUnique(t: LabelVectorTransformer, rows: seq<Row>, out: seq<Row>)
    requires |out| <= |rows|
    requires forall i :: 0 <= i < |out| ==> TransformRow(t, rows[i]) == Some(out[i])
    requires |out| < |rows| ==> TransformRow(t, rows[|out|]).None?
    ensures out == Transformed(t, rows)
  {
    if out != [] {
      TransformedIsUnique(t, rows[1..], out[1..]);
      assert out == [out[0]] + out[1..];
    }
  }

  /** `_transform`: drains the partition into a list of new rows; the first
      TypeError ends the loop and is swallowed. Labels of the rows it reaches
      must be valid indices. */
  method TransformPartition(t: LabelVectorTransformer, rows: seq<Row>) returns (out: seq<Row>)
    requires forall i :: 0 <= i < Succeeding(t, rows) ==> LabelInRange(t, rows[i])
    ensures |out| <= |rows|
    ensures forall i :: 0 <= i < |out| ==> TransformRow(t, rows[i]) == Some(out[i])
    ensures |out| < |rows| ==> TransformRow(t, rows[|out|]).None?
    ensures out == Transformed(t, rows)
  {
    out := [];
    var i := 0;
    while i < |rows|
      invariant i <= Succeeding(t, rows)
      invariant |out| == i
      invariant forall j :: 0 <= j < i ==> TransformRow(t, rows[j]) == Some(out[j])
    {
      var row := rows[i];
      var cell := Access(row, t.inputColumn);
      if !(cell.Some? && cell.value.Num?) {
        // TypeError: swallowed, and the remaining rows are dropped.
        assert TransformRow(t, row).None?;
        break;
      }
      assert Label(t, row) == Some(cell.value.n);
      assert i < Succeeding(t, rows);
      var vector := Vectors.ToVector(cell.value.n, t.outputDim);
      var newRow := row + [Field(t.outputColumn, Vector(vector[..]))];
      assert TransformRow(t, row) == Some(newRow);
      out := out + [newRow];
      i := i + 1;
    }
    TransformedIsUnique(t, rows, out);
  }

  /** All rows of all partitions, in partition order. */
  function Flatten<T>(parts: seq<seq<T>>): seq<T>
  {
    if parts == [] then [] else parts[0] + Flatten(parts[1..])
  }

  /** `transform`: the partition results, gathered in partition order. */
  function TransformAll(t: LabelVectorTransformer, parts: seq<seq<Row>>): seq<Row>
  {
    if parts == [] then [] else Transformed(t, parts[0]) + TransformAll(t, parts[1..])
  }

  /** When no row of the dataset fails, the dataset is transformed row by
      row: as many rows as went in, each the transformation of its input. */
  lemma {:induction false} TransformAllWithoutFailure(t: LabelVectorTransformer, parts: seq<seq<Row>>)
    requires forall i :: 0 <= i < |Flatten(parts)| ==> TransformRow(t, Flatten(parts)[i]).Some?
    requires forall i :: 0 <= i < |Flatten(parts)| ==> LabelInRange(t, Flatten(parts)[i])
    ensures |TransformAll(t, parts)| == |Flatten(parts)|
    ensures forall i :: 0 <= i < |Flatten(parts)| ==>
              TransformRow(t, Flatten(parts)[i]) == Some(TransformAll(t, parts)[i])
  {
    if parts != [] {
      var head, rest := parts[0], Flatten(parts[1..]);
      assert Flatten(parts) == head + rest;
      assert forall i :: 0 <= i < |head| ==> Flatten(parts)[i] == head[i];
      assert forall i :: 0 <= i < |rest| ==> Flatten(parts)[|head| + i] == rest[i];
      TransformedWithoutFailure(t, head);
      TransformAllWithoutFailure(t, parts[1..]);
    }
  }
}
