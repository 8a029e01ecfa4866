/** The column loop of Query.executeAndFetch (Query.java:38-50): each cursor
    row becomes a new object whose public fields are assigned from the
    columns.  Reflection is reduced to a shape: the set of public field names
    of the target class, and which values each field accepts. */
module RowMapping {
  import opened Outcomes

  /** A query result as the driver reports it: the column names, in column
      order, and the rows, each holding one value per column. */
  datatype Cursor<V> = Cursor(columns: seq<string>, rows: seq<seq<V>>)

  predicate Rectangular<V>(c: Cursor<V>) {
    forall i :: 0 <= i < |c.rows| ==> |c.rows[i]| == |c.columns|
  }

  /** The target class: its public fields, and whether a field can be set to
      a value (`Field.set` refuses, for example, null for an `int` field). */
  datatype Shape<-V> = Shape(fields: set<string>, accepts: (string, V) -> bool)

  /** A field of a new object keeps its default value until assigned. */
  datatype Field<V> = Default | Assigned(value: V)

  type Object<V> = map<string, Field<V>>

  /** A freshly instantiated object: every field at its default. */
  function Fresh<V>(shape: Shape<V>): (o: Object<V>)
    ensures o.Keys == shape.fields
    ensures forall f :: f in o ==> o[f] == Default
  {
    map f | f in shape.fields :: Default
  }

  /** The index of the first column called `name`: the column whose value
      `getObject(name)` reads. */
  function FirstIndex(cols: seq<string>, name: string): (k: nat)
    requires name in cols
    ensures k < |cols| && cols[k] == name
    ensures forall j :: 0 <= j < k ==> cols[j] != name
  {
    if cols[0] == name then 0 else 1 + FirstIndex(cols[1..], name)
  }

  /** The columns the loop visits: `columnIndex` runs from 1 while it is
      below the column count, so the last column is never reached. */
  function Visited(cols: seq<string>): (v: seq<string>)
    ensures |v| == if |cols| == 0 then 0 else |cols| - 1
    ensures v == cols[..|v|]
  {
    if |cols| == 0 then [] else cols[..|cols| - 1]
  }

  /** Why the column at 0-based index `k` cannot be stored, if it cannot. */
  function CellError<V>(cols: seq<string>, row: seq<V>, shape: Shape<V>, k: nat): Option<Error>
    requires k < |cols| == |row|
  {
    var name := cols[k];
    if name !in shape.fields then Some(NoSuchField(name))
    else if !shape.accepts(name, row[FirstIndex(cols, name)]) then Some(FieldTypeMismatch(name))
    else None
  }

  /** Assigns the columns from 0-based index `k` on, in column order, while
      the loop condition holds; the first column that cannot be stored ends
      the row with its error. */
  function FillRow<V>(cols: seq<string>, row: seq<V>, shape: Shape<V>, obj: Object<V>, k: nat): (r: Result<Object<V>>)
    requires |row| == |cols|
    decreases |cols| - k
  {
    if k + 1 >= |cols| then Success(obj)
    else
      match CellError(cols, row, shape, k)
      case Some(e) => Failure(e)
      case None => FillRow(cols, row, shape, obj[cols[k] := Assigned(row[FirstIndex(cols, cols[k])])], k + 1)
  }

  /** The object a row should become, stated without the loop: a field named
      by a visited column holds the value of the first column of that name,
      every other field keeps its default. */
  function RowObject<V>(cols: seq<string>, row: seq<V>, shape: Shape<V>): Object<V>
    requires |row| == |cols|
  {
    map f | f in shape.fields :: if f in Visited(cols) then Assigned(row[FirstIndex(cols, f)]) else Default
  }

  /** The object after the first `k` columns have been stored. */
  function Partial<V>(cols: seq<string>, row: seq<V>, shape: Shape<V>, k: nat): Object<V>
    requires |row| == |cols| && k <= |cols|
  {
    map f | f in shape.fields :: if f in cols[..k] then Assigned(row[FirstIndex(cols, f)]) else Default
  }

  /** Whether some visited column from index `k` on cannot be stored. */
  predicate BadFrom<V>(cols: seq<string>, row: seq<V>, shape: Shape<V>, k: nat)
    requires |row| == |cols|
  {
    exists j :: k <= j < |Visited(cols)| && CellError(cols, row, shape, j).Some?
  }

  /** Whether the row can be stored at all. */
  predicate RowFits<V>(cols: seq<string>, row: seq<V>, shape: Shape<V>)
    requires |row| == |cols|
  {
    !BadFrom(cols, row, shape, 0)
  }

  /** The error of the first visited column from `k` on that cannot be
      stored: every visited column before it can be. */
  function FirstError<V>(cols: seq<string>, row: seq<V>, shape: Shape<V>, k: nat): (e: Error)
    requires |row| == |cols| && BadFrom(cols, row, shape, k)
    ensures exists j :: && k <= j < |Visited(cols)| && CellError(cols, row, shape, j) == Some(e)
                        && forall i :: k <= i < j ==> CellError(cols, row, shape, i).None?
    decreases |cols| - k
  {
    if CellError(cols, row, shape, k).Some? then CellError(cols, row, shape, k).value
    else
      assert BadFrom(cols, row, shape, k + 1);
      FirstError(cols, row, shape, k + 1)
  }

  lemma PartialStep<V>(cols: seq<string>, row: seq<V>, shape: Shape<V>, k: nat)
    requires |row| == |cols| && k < |cols|
    requires cols[k] in shape.fields
    ensures Partial(cols, row, shape, k)[cols[k] := Assigned(row[FirstIndex(cols, cols[k])])] == Partial(cols, row, shape, k + 1)
  {
    assert cols[..k + 1] == cols[..k] + [cols[k]];
  }

  /** The column loop, from column `k` on, against the reference: it fails
      exactly when a visited column cannot be stored, with the error of the
      first such column, and otherwise yields the reference object. */
  lemma {:induction false} FillRowFrom<V>(cols: seq<string>, row: seq<V>, shape: Shape<V>, k: nat)
    requires |row| == |cols| && k <= |Visited(cols)|
    ensures BadFrom(cols, row, shape, k) ==>
      FillRow(cols, row, shape, Partial(cols, row, shape, k), k) == Failure(FirstError(cols, row, shape, k))
    ensures !BadFrom(cols, row, shape, k) ==>
      FillRow(cols, row, shape, Partial(cols, row, shape, k), k) == Success(RowObject(cols, row, shape))
    decreases |cols| - k
  {
    var obj := Partial(cols, row, shape, k);
    if k + 1 >= |cols| {
      assert k == |Visited(cols)|;
      assert !BadFrom(cols, row, shape, k);
      assert cols[..k] == Visited(cols);
    } else {
      match CellError(cols, row, shape, k)
      case Some(e) =>
        assert BadFrom(cols, row, shape, k);
      case None =>
        PartialStep(cols, row, shape, k);
        FillRowFrom(cols, row, shape, k + 1);
        assert BadFrom(cols, row, shape, k) <==> BadFrom(cols, row, shape, k + 1);
    }
  }

  /** One row, from a fresh object: the loop succeeds exactly when every
      visited column can be stored, and then yields the reference object;
      otherwise it fails with the first column's error. */
  function MapRow<V>(cols: seq<string>, row: seq<V>, shape: Shape<V>): (r: Result<Object<V>>)
    requires |row| == |cols|
    ensures r.Success? <==> RowFits(cols, row, shape)
    ensures r.Success? ==> r.value == RowObject(cols, row, shape)
    ensures r.Failure? ==> r.error == FirstError(cols, row, shape, 0)
  {
    assert Partial(cols, row, shape, 0) == Fresh(shape);
    FillRowFrom(cols, row, shape, 0);
    FillRow(cols, row, shape, Fresh(shape), 0)
  }

  /** The rows in cursor order, one new object each; the first row that
      cannot be stored ends the fetch with its error and no list. */
  function MapRows<V>(cols: seq<string>, rows: seq<seq<V>>, shape: Shape<V>): (r: Result<seq<Object<V>>>)
    requires forall i :: 0 <= i < |rows| ==> |rows[i]| == |cols|
    ensures r.Success? <==> forall i :: 0 <= i < |rows| ==> RowFits(cols, rows[i], shape)
    ensures r.Success? ==>
      && |r.value| == |rows|
      && (forall i :: 0 <= i < |rows| ==> r.value[i] == RowObject(cols, rows[i], shape))
    ensures r.Failure? ==>
      exists i :: && 0 <= i < |rows| && !RowFits(cols, rows[i], shape)
                  && (forall j :: 0 <= j < i ==> RowFits(cols, rows[j], shape))
                  && r.error == FirstError(cols, rows[i], shape, 0)
    decreases |rows|
  {
    if rows == [] then Success([])
    else
      match MapRow(cols, rows[0], shape)
      case Failure(e) => Failure(e)
      case Success(o) =>
        match MapRows(cols, rows[1..], shape)
        case Failure(e) =>
          assert forall i :: 1 <= i < |rows| ==> rows[1..][i - 1] == rows[i];
          Failure(e)
        case Success(os) =>
          assert forall i :: 1 <= i < |rows| ==> rows[1..][i - 1] == rows[i];
          Success([o] + os)
  }
}
