/** The demo program's flow (Main.java:9-11) on the `User` class (User.java):
    the query is created, its one parameter bound to null, and a fetched row
    mapped into a user. */
module QueryExamples {
  import opened Outcomes
  import opened NamedStatement
  import opened RowMapping
  import opened Queries
  import ParserExamples

  /** Java values as a driver returns them, enough for the columns of the
      `t_user` table. */
  datatype JValue = JInt(i: int) | JString(s: string) | JDate(millis: int) | JNull

  /** Which values `Field.set` accepts for each public field of `User`: the
      `int` fields refuse anything but an integer (null included), the
      reference fields take their own type or null. */
  predicate UserAccepts(field: string, v: JValue) {
    if field == "id" || field == "age" then v.JInt?
    else if field == "name" then v.JString? || v.JNull?
    else v.JDate? || v.JNull?
  }

  function UserShape(): Shape<JValue> {
    Shape({"id", "name", "age", "birthday"}, UserAccepts)
  }

  /** Binding the demo's parameter to null puts an SQL NULL of type OTHER at
      the only placeholder. */
  lemma MainBindsNull()
    ensures var q := CreateQuery<JValue>("select * from t_user where name is :name");
      && q.statement.sql == "select * from t_user where name is ?"
      && AddParameter(q, "name", None)
         == Success(Query(Statement("select * from t_user where name is ?", map["name" := [1]], map[1 := SqlNull(TypesOther)], false)))
  {
    ParserExamples.MainQueryExample();
    var q := CreateQuery<JValue>("select * from t_user where name is :name");
    var r := AddParameter(q, "name", None);
    assert r.value.statement.slots == map[1 := SqlNull(TypesOther)];
  }

  /** The row of a `select *` over t_user, as the reference object. */
  lemma UserRowObject()
    ensures var cols := ["id", "name", "age", "birthday"];
      var row := [JInt(1), JString("mario"), JInt(30), JDate(0)];
      && RowFits(cols, row, UserShape())
      && RowObject(cols, row, UserShape())
         == map["id" := Assigned(JInt(1)), "name" := Assigned(JString("mario")),
                "age" := Assigned(JInt(30)), "birthday" := Default]
  {
    var cols := ["id", "name", "age", "birthday"];
    var row := [JInt(1), JString("mario"), JInt(30), JDate(0)];
    assert Visited(cols) == ["id", "name", "age"];
    assert FirstIndex(cols, "id") == 0;
    assert FirstIndex(cols, "name") == 1;
    assert FirstIndex(cols, "age") == 2;
    assert CellError(cols, row, UserShape(), 0).None?;
    assert CellError(cols, row, UserShape(), 1).None?;
    assert CellError(cols, row, UserShape(), 2).None?;
  }

  /** A `select *` over t_user: every visited column lands in its field, but
      `birthday`, the last column, keeps its default. */
  lemma UserRowLosesLastColumn(q: Query<JValue>, closeFails: bool)
    requires !q.statement.closed
    ensures var c := Cursor(["id", "name", "age", "birthday"], [[JInt(1), JString("mario"), JInt(30), JDate(0)]]);
      ExecuteAndFetch(q, Success(c), UserShape(), closeFails).result
        == Success([map["id" := Assigned(JInt(1)), "name" := Assigned(JString("mario")),
                        "age" := Assigned(JInt(30)), "birthday" := Default]])
  {
    var c := Cursor(["id", "name", "age", "birthday"], [[JInt(1), JString("mario"), JInt(30), JDate(0)]]);
    UserRowObject();
    var r := ExecuteAndFetch(q, Success(c), UserShape(), closeFails).result;
    assert r.Success? && |r.value| == 1;
    assert r.value == [r.value[0]];
  }

  /** A null age cannot be stored in an `int` field: the fetch fails with
      that field's error wrapped in a runtime exception, and returns no list. */
  lemma NullAgeFails(q: Query<JValue>, closeFails: bool)
    requires !q.statement.closed
    ensures var c := Cursor(["id", "name", "age", "birthday"], [[JInt(1), JString("mario"), JNull, JDate(0)]]);
      ExecuteAndFetch(q, Success(c), UserShape(), closeFails).result == Failure(Runtime(FieldTypeMismatch("age")))
  {
    var cols := ["id", "name", "age", "birthday"];
    var row := [JInt(1), JString("mario"), JNull, JDate(0)];
    assert |Visited(cols)| == 3;
    assert FirstIndex(cols, "id") == 0;
    assert FirstIndex(cols, "name") == 1;
    assert FirstIndex(cols, "age") == 2;
    assert CellError(cols, row, UserShape(), 0).None?;
    assert CellError(cols, row, UserShape(), 1).None?;
    assert CellError(cols, row, UserShape(), 2) == Some(FieldTypeMismatch("age"));
    assert !RowFits(cols, row, UserShape());
    assert FirstError(cols, row, UserShape(), 2) == FieldTypeMismatch("age");
    assert FirstError(cols, row, UserShape(), 0) == FieldTypeMismatch("age");
  }

  /** The last column need not name a field at all: it is never looked up. */
  lemma UnknownLastColumnIgnored(q: Query<JValue>, closeFails: bool)
    requires !q.statement.closed
    ensures var c := Cursor(["id", "rowid"], [[JInt(7), JInt(99)]]);
      ExecuteAndFetch(q, Success(c), UserShape(), closeFails).result
        == Success([map["id" := Assigned(JInt(7)), "name" := Default, "age" := Default, "birthday" := Default]])
  {
    var cols := ["id", "rowid"];
    var row := [JInt(7), JInt(99)];
    var c := Cursor(cols, [row]);
    assert Visited(cols) == ["id"];
    assert FirstIndex(cols, "id") == 0;
    assert CellError(cols, row, UserShape(), 0).None?;
    assert RowFits(cols, row, UserShape());
    assert RowObject(cols, row, UserShape())
        == map["id" := Assigned(JInt(7)), "name" := Default, "age" := Default, "birthday" := Default];
    var r := ExecuteAndFetch(q, Success(c), UserShape(), closeFails).result;
    assert r.Success? && |r.value| == 1;
    assert r.value == [r.value[0]];
  }
}
