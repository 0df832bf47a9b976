/** Records of the distributed dataframe engine, as the vectoriser and the
    ensemble worker see them: an ordered sequence of named fields. */
module Rows {

  datatype Option<+T> = None | Some(value: T)

  /** The field values the core reads and writes: integer class labels,
      dense numeric vectors (features, one-hot labels) and anything else. */
  datatype Value = Num(n: int) | Vector(entries: seq<real>) | Text(s: string)

  datatype Field = Field(name: string, value: Value)

  /** A record: its field names and values, in order. */
  type Row = seq<Field>

  /** `row[name]`: the value of the first field called `name`. `None` stands
      for a failed access; the loops of the core treat it as the `TypeError`
      they swallow, and stop quietly. */
  function Access(r: Row, name: string): Option<Value>
  {
    if r == [] then None
    else if r[0].name == name then Some(r[0].value)
    else Access(r[1..], name)
  }

  /** `row[name]` fails exactly when no field has that name, and otherwise
      yields the value of the first field that has it. */
  lemma {:induction false} AccessFindsFirst(r: Row, name: string)
    ensures Access(r, name).None? <==> forall i :: 0 <= i < |r| ==> r[i].name != name
    ensures forall i :: 0 <= i < |r| && r[i].name == name && NoneNamedBefore(r, name, i) ==>
                          Access(r, name) == Some(r[i].value)
  {
    if r != [] && r[0].name != name {
      AccessFindsFirst(r[1..], name);
      assert forall i :: 1 <= i < |r| ==> r[i] == r[1..][i - 1];
    }
  }

  /** No field before index `i` is called `name`. */
  ghost predicate NoneNamedBefore(r: Row, name: string, i: int)
    requires 0 <= i <= |r|
  {
    forall j :: 0 <= j < i ==> r[j].name != name
  }

  /** Appending a field leaves every existing name reading what it read
      before, and makes a new name read the appended value. */
  lemma {:induction false} AccessAppend(r: Row, f: Field, name: string)
    ensures Access(r + [f], name) ==
              if Access(r, name).Some? then Access(r, name)
              else if f.name == name then Some(f.value)
              else None
  {
    if r != [] && r[0].name != name {
      assert (r + [f])[1..] == r[1..] + [f];
      AccessAppend(r[1..], f, name);
    }
  }
}
