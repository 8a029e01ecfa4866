/** A query (Query.java): a named-parameter statement that parameters are
    bound to, then executed once to fetch its rows as objects.  The driver's
    execution is a parameter, the outcome it would report, and so is whether
    closing the statement would fail. */
module Queries {
  import opened Outcomes
  import opened Positions
  import opened SqlParser
  import opened NamedStatement
  import opened RowMapping

  datatype Query<V> = Query(statement: Statement<V>)

  /** The query over `text` (Sql2o.createQuery and the Query constructor). */
  function CreateQuery<V>(text: string): (q: Query<V>)
    ensures q.statement == Prepare(text)
  {
    Query(Prepare(text))
  }

  /** Binds one parameter.  The query comes back on success; any failure of
      the binding, an unknown name included, is rethrown wrapped in a runtime
      exception, and then the statement's slots are as they were. */
  function AddParameter<V>(q: Query<V>, name: string, value: Option<V>): (r: Result<Query<V>>)
    ensures var st := q.statement;
      r.Success? <==> name in st.positions && (!st.closed || st.positions[name] == [])
    ensures r.Failure? ==> r.error.Runtime?
    ensures name !in q.statement.positions ==> r == Failure(Runtime(ParameterNotFound(name)))
    ensures name in q.statement.positions && q.statement.closed && q.statement.positions[name] != [] ==>
      r == Failure(Runtime(StatementClosed))
    ensures r.Success? ==>
      var st := q.statement;
      var st' := r.value.statement;
      && st'.sql == st.sql && st'.positions == st.positions && st'.closed == st.closed
      && (forall p :: p in st'.slots <==> p in st.slots || p in st.positions[name])
      && (forall p :: p in st.positions[name] ==> st'.slots[p] == SlotFor(value))
      && (forall p :: p in st.slots && p !in st.positions[name] ==> st'.slots[p] == st.slots[p])
  {
    var (st, outcome) := SetObject(q.statement, name, value);
    match outcome
    case Fail(cause) => Failure(Runtime(cause))
    case Pass => Success(Query(st))
  }

  /** A parameter binding as written in a call chain: a name and a Java
      value, null being `None`. */
  type Binding<V> = (string, Option<V>)

  /** A chain `q.addParameter(..)...addParameter(..)`: the last call applies
      to what the earlier calls returned, and the first exception ends it. */
  function AddParameters<V>(q: Query<V>, binds: seq<Binding<V>>): Result<Query<V>>
    decreases |binds|
  {
    if binds == [] then Success(q)
    else
      match AddParameters(q, binds[..|binds| - 1])
      case Failure(e) => Failure(e)
      case Success(q1) => AddParameter(q1, binds[|binds| - 1].0, binds[|binds| - 1].1)
  }

  /** The index of the last binding of `name` in the chain, if any. */
  function LastBinding<V>(binds: seq<Binding<V>>, name: string): (r: Option<nat>)
    ensures r.None? <==> forall i :: 0 <= i < |binds| ==> binds[i].0 != name
    ensures r.Some? ==>
      && r.value < |binds| && binds[r.value].0 == name
      && (forall j :: r.value < j < |binds| ==> binds[j].0 != name)
    decreases |binds|
  {
    if binds == [] then None
    else if binds[|binds| - 1].0 == name then Some(|binds| - 1)
    else
      var r := LastBinding(binds[..|binds| - 1], name);
      assert forall i :: 0 <= i < |binds| - 1 ==> binds[..|binds| - 1][i] == binds[i];
      r
  }

  /** The slot placeholder `p` of name `n` holds after the chain `binds`
      took statement `st` to `st2`: the slot of the last value given for `n`,
      or, if `n` was never bound, the slot it held before. */
  ghost predicate SlotAfterChain<V>(st: Statement<V>, st2: Statement<V>, binds: seq<Binding<V>>, n: string, p: nat) {
    match LastBinding(binds, n)
    case Some(i) => p in st2.slots && st2.slots[p] == SlotFor(binds[i].1)
    case None => (p in st2.slots <==> p in st.slots) && (p in st.slots ==> st2.slots[p] == st.slots[p])
  }

  /** One more binding at the end of a chain keeps SlotAfterChain. */
  lemma ChainStep<V>(st: Statement<V>, st1: Statement<V>, binds: seq<Binding<V>>, n: string, p: nat)
    requires binds != [] && Disjoint(st.positions) && st1.positions == st.positions
    requires n in st.positions && p in st.positions[n]
    requires SlotAfterChain(st, st1, binds[..|binds| - 1], n, p)
    requires AddParameter(Query(st1), binds[|binds| - 1].0, binds[|binds| - 1].1).Success?
    ensures SlotAfterChain(st, AddParameter(Query(st1), binds[|binds| - 1].0, binds[|binds| - 1].1).value.statement, binds, n, p)
  {
    var b := binds[|binds| - 1];
    if n != b.0 {
      assert p !in st.positions[b.0];
      assert LastBinding(binds, n) == LastBinding(binds[..|binds| - 1], n);
    }
  }

  /** What a chain of bindings does to an open statement whose names all
      occur: it succeeds, leaves text, index and open state alone, and every
      placeholder of a bound name holds the slot of the LAST value given for
      that name, while placeholders of unbound names keep their slots. */
  lemma {:induction false} ChainBindsLastValue<V>(q: Query<V>, binds: seq<Binding<V>>)
    requires !q.statement.closed && Disjoint(q.statement.positions)
    requires forall i :: 0 <= i < |binds| ==> binds[i].0 in q.statement.positions
    ensures AddParameters(q, binds).Success?
    ensures var st2 := AddParameters(q, binds).value.statement;
      && st2.sql == q.statement.sql && st2.positions == q.statement.positions && !st2.closed
    ensures forall n, p :: n in q.statement.positions && p in q.statement.positions[n] ==>
      SlotAfterChain(q.statement, AddParameters(q, binds).value.statement, binds, n, p)
    decreases |binds|
  {
    var st := q.statement;
    if binds == [] {
      forall n, p | n in st.positions && p in st.positions[n]
        ensures SlotAfterChain(st, st, binds, n, p)
      {
      }
    } else {
      var init := binds[..|binds| - 1];
      var b := binds[|binds| - 1];
      assert forall i :: 0 <= i < |init| ==> init[i] == binds[i];
      ChainBindsLastValue(q, init);
      var st1 := AddParameters(q, init).value.statement;
      assert AddParameters(q, init).value == Query(st1);
      forall n, p | n in st.positions && p in st.positions[n]
        ensures SlotAfterChain(st, AddParameter(Query(st1), b.0, b.1).value.statement, binds, n, p)
      {
        ChainStep(st, st1, binds, n, p);
      }
    }
  }

  /** Binding every parameter of a freshly created query fills every
      placeholder 1..k of the rewritten text: the k-th holds the last value
      given for the name written at the k-th parameter. */
  lemma {:induction false} EveryPlaceholderBound<V>(text: string, binds: seq<Binding<V>>)
    requires forall i :: 0 <= i < |binds| ==> binds[i].0 in Names(Tokens(text))
    requires forall n :: n in Names(Tokens(text)) ==> exists i :: 0 <= i < |binds| && binds[i].0 == n
    ensures AddParameters(CreateQuery<V>(text), binds).Success?
    ensures var ns := Names(Tokens(text));
      var slots := AddParameters(CreateQuery<V>(text), binds).value.statement.slots;
      && (forall p :: p in slots <==> 1 <= p <= |ns|)
      && (forall k :: 0 <= k < |ns| ==>
            && LastBinding(binds, ns[k]).Some?
            && slots[k + 1] == SlotFor(binds[LastBinding(binds, ns[k]).value].1))
  {
    var q := CreateQuery<V>(text);
    ParsePositions(text);
    ChainBindsLastValue(q, binds);
    forall p | p in AddParameters(q, binds).value.statement.slots
      ensures 1 <= p <= |Names(Tokens(text))|
    {
      ChainSlotInRange(text, binds, p);
    }
    forall k | 0 <= k < |Names(Tokens(text))|
      ensures ChainSlotAt(text, binds, k)
    {
      ChainSlotOfPlaceholder(text, binds, k);
    }
    forall p | 1 <= p <= |Names(Tokens(text))|
      ensures p in AddParameters(q, binds).value.statement.slots
    {
      assert ChainSlotAt(text, binds, p - 1);
    }
  }

  ghost predicate ChainSlotAt<V>(text: string, binds: seq<Binding<V>>, k: nat)
    requires AddParameters(CreateQuery<V>(text), binds).Success? && k < |Names(Tokens(text))|
  {
    var ns := Names(Tokens(text));
    var slots := AddParameters(CreateQuery<V>(text), binds).value.statement.slots;
    && LastBinding(binds, ns[k]).Some?
    && k + 1 in slots
    && slots[k + 1] == SlotFor(binds[LastBinding(binds, ns[k]).value].1)
  }

  lemma {:induction false} ChainSlotInRange<V>(text: string, binds: seq<Binding<V>>, p: nat)
    requires AddParameters(CreateQuery<V>(text), binds).Success?
    requires p in AddParameters(CreateQuery<V>(text), binds).value.statement.slots
    ensures 1 <= p <= |Names(Tokens(text))|
  {
    ParsePositions(text);
    AddParametersKeys(CreateQuery<V>(text), binds, p);
  }

  lemma {:induction false} ChainSlotOfPlaceholder<V>(text: string, binds: seq<Binding<V>>, k: nat)
    requires forall i :: 0 <= i < |binds| ==> binds[i].0 in Names(Tokens(text))
    requires forall n :: n in Names(Tokens(text)) ==> exists i :: 0 <= i < |binds| && binds[i].0 == n
    requires k < |Names(Tokens(text))|
    ensures AddParameters(CreateQuery<V>(text), binds).Success?
    ensures ChainSlotAt(text, binds, k)
  {
    var q := CreateQuery<V>(text);
    var ns := Names(Tokens(text));
    ParsePositions(text);
    ChainBindsLastValue(q, binds);
    assert ns[k] in ns;
    assert SlotAfterChain(q.statement, AddParameters(q, binds).value.statement, binds, ns[k], k + 1);
  }

  /** A chain only ever adds slots at placeholders its names own. */
  lemma {:induction false} AddParametersKeys<V>(q: Query<V>, binds: seq<Binding<V>>, p: nat)
    requires AddParameters(q, binds).Success?
    requires p in AddParameters(q, binds).value.statement.slots
    ensures p in q.statement.slots || exists n :: n in q.statement.positions && p in q.statement.positions[n]
    ensures AddParameters(q, binds).value.statement.positions == q.statement.positions
    decreases |binds|
  {
    if binds != [] {
      var init := binds[..|binds| - 1];
      var q1 := AddParameters(q, init).value;
      var b := binds[|binds| - 1];
      if p in q1.statement.slots {
        AddParametersKeys(q, init, p);
      } else {
        AddParametersPositions(q, init);
        assert p in q1.statement.positions[b.0];
      }
    }
  }

  lemma {:induction false} AddParametersPositions<V>(q: Query<V>, binds: seq<Binding<V>>)
    requires AddParameters(q, binds).Success?
    ensures AddParameters(q, binds).value.statement.positions == q.statement.positions
    decreases |binds|
  {
    if binds != [] {
      AddParametersPositions(q, binds[..|binds| - 1]);
    }
  }

  /** What executeAndFetch returns: the query, whose statement is now
      closed, the objects or the exception, and whether a failure to close
      was logged. */
  datatype Fetched<V> = Fetched(query: Query<V>, result: Result<seq<Object<V>>>, closeLogged: bool)

  /** Whether every row of a cursor can be stored in the shape. */
  predicate AllRowsFit<V>(c: Cursor<V>, shape: Shape<V>)
    requires Rectangular(c)
  {
    forall i :: 0 <= i < |c.rows| ==> RowFits(c.columns, c.rows[i], shape)
  }

  /** Executes the statement and maps its rows (Query.java:31-62).
      `executed` is what the driver's executeQuery would report for the open
      statement; executing a closed statement fails with the driver's
      closed-statement error instead.  Every failure comes back wrapped in a
      runtime exception, the statement is closed on every path, and a
      failure to close is only logged. */
  function ExecuteAndFetch<V>(q: Query<V>, executed: Result<Cursor<V>>, shape: Shape<V>, closeFails: bool): (r: Fetched<V>)
    requires executed.Success? ==> Rectangular(executed.value)
    ensures r.query.statement == q.statement.(closed := true)
    ensures r.closeLogged == closeFails
    ensures r.result.Failure? ==> r.result.error.Runtime?
    ensures r.result.Success? <==> !q.statement.closed && executed.Success? && AllRowsFit(executed.value, shape)
    ensures r.result.Success? ==>
      var c := executed.value;
      && |r.result.value| == |c.rows|
      && (forall i :: 0 <= i < |c.rows| ==> r.result.value[i] == RowObject(c.columns, c.rows[i], shape))
    ensures q.statement.closed ==> r.result == Failure(Runtime(StatementClosed))
    ensures !q.statement.closed && executed.Failure? ==> r.result == Failure(Runtime(executed.error))
    ensures !q.statement.closed && executed.Success? && r.result.Failure? ==>
      var c := executed.value;
      exists i :: && 0 <= i < |c.rows| && !RowFits(c.columns, c.rows[i], shape)
                  && (forall j :: 0 <= j < i ==> RowFits(c.columns, c.rows[j], shape))
                  && r.result.error == Runtime(FirstError(c.columns, c.rows[i], shape, 0))
  {
    var result :=
      if q.statement.closed then Failure(Runtime(StatementClosed))
      else match executed
        case Failure(e) => Failure(Runtime(e))
        case Success(c) =>
          match MapRows(c.columns, c.rows, shape)
          case Failure(e) => Failure(Runtime(e))
          case Success(objs) => Success(objs);
    Fetched(Query(q.statement.(closed := true)), result, closeFails)
  }

  /** A failing close changes nothing but the log. */
  lemma CloseFailureDoesNotMask<V>(q: Query<V>, executed: Result<Cursor<V>>, shape: Shape<V>)
    requires executed.Success? ==> Rectangular(executed.value)
    ensures ExecuteAndFetch(q, executed, shape, true).result == ExecuteAndFetch(q, executed, shape, false).result
    ensures ExecuteAndFetch(q, executed, shape, true).query == ExecuteAndFetch(q, executed, shape, false).query
  {
  }

  /** A fetched query is spent: binding a parameter again, or fetching
      again, fails with the closed-statement error. */
  lemma FetchedQueryIsSpent<V>(q: Query<V>, executed: Result<Cursor<V>>, shape: Shape<V>, closeFails: bool,
                               name: string, value: Option<V>, again: Result<Cursor<V>>, closeAgain: bool)
    requires executed.Success? ==> Rectangular(executed.value)
    requires again.Success? ==> Rectangular(again.value)
    requires name in q.statement.positions && q.statement.positions[name] != []
    ensures AddParameter(ExecuteAndFetch(q, executed, shape, closeFails).query, name, value)
         == Failure(Runtime(StatementClosed))
    ensures ExecuteAndFetch(ExecuteAndFetch(q, executed, shape, closeFails).query, again, shape, closeAgain).result
         == Failure(Runtime(StatementClosed))
  {
  }

  /** The last column is never assigned: when its name is not also the name
      of an earlier column, that field of every fetched object keeps its
      default value. */
  lemma LastColumnNeverWritten<V>(q: Query<V>, c: Cursor<V>, shape: Shape<V>, closeFails: bool)
    requires Rectangular(c) && |c.columns| > 0
    requires ExecuteAndFetch(q, Success(c), shape, closeFails).result.Success?
    ensures var last := c.columns[|c.columns| - 1];
      var objs := ExecuteAndFetch(q, Success(c), shape, closeFails).result.value;
      last !in c.columns[..|c.columns| - 1] && last in shape.fields ==>
        forall i :: 0 <= i < |objs| ==> objs[i][last] == Default
  {
  }

  /** With zero or one column nothing is assigned and nothing can fail: every
      row becomes an object with all fields at their defaults. */
  lemma NarrowCursorDefaults<V>(q: Query<V>, c: Cursor<V>, shape: Shape<V>, closeFails: bool)
    requires Rectangular(c) && |c.columns| <= 1 && !q.statement.closed
    ensures var r := ExecuteAndFetch(q, Success(c), shape, closeFails).result;
      r.Success? && |r.value| == |c.rows| && forall i :: 0 <= i < |c.rows| ==> r.value[i] == Fresh(shape)
  {
    var r := ExecuteAndFetch(q, Success(c), shape, closeFails).result;
    forall i | 0 <= i < |c.rows|
      ensures RowFits(c.columns, c.rows[i], shape)
    {
      assert |Visited(c.columns)| == 0;
    }
    forall i | 0 <= i < |c.rows|
      ensures r.value[i] == Fresh(shape)
    {
      assert Visited(c.columns) == [];
    }
  }

  /** Each visited column that is the first of its name stores its own
      value, unconverted, in the field of that name; a later column of the
      same name supplies nothing. */
  lemma FirstColumnOfNameWins<V>(q: Query<V>, c: Cursor<V>, shape: Shape<V>, closeFails: bool)
    requires Rectangular(c)
    requires ExecuteAndFetch(q, Success(c), shape, closeFails).result.Success?
    ensures var objs := ExecuteAndFetch(q, Success(c), shape, closeFails).result.value;
      forall i, k :: 0 <= i < |objs| && 0 <= k < |c.columns| - 1 && c.columns[k] !in c.columns[..k] ==>
        c.columns[k] in objs[i] && objs[i][c.columns[k]] == Assigned(c.rows[i][k])
  {
    var objs := ExecuteAndFetch(q, Success(c), shape, closeFails).result.value;
    forall i, k | 0 <= i < |objs| && 0 <= k < |c.columns| - 1 && c.columns[k] !in c.columns[..k]
      ensures c.columns[k] in objs[i] && objs[i][c.columns[k]] == Assigned(c.rows[i][k])
    {
      var cols := c.columns;
      assert RowFits(cols, c.rows[i], shape);
      assert CellError(cols, c.rows[i], shape, k).None?;
      assert cols[k] in Visited(cols);
      assert forall j :: 0 <= j < k ==> cols[..k][j] == cols[j];
    }
  }
}
