/** A named-parameter statement (NamedParameterStatement.java): the rewritten
    text handed to the driver, the index from names to placeholder positions,
    and the parameter slots bound so far.  The driver's statement is reduced
    to its parameter slots and to whether it has been closed. */
module NamedStatement {
  import opened Outcomes
  import opened Identifiers
  import opened Positions
  import opened SqlParser

  /** The value of java.sql.Types.OTHER, the SQL type a null is bound with. */
  const TypesOther: int := 1111

  /** What a placeholder holds once bound: a value, or an SQL NULL of a type. */
  datatype Slot<V> = Val(v: V) | SqlNull(sqlType: int)

  type Slots<V> = map<nat, Slot<V>>

  datatype Statement<V> = Statement(sql: string, positions: PositionMap, slots: Slots<V>, closed: bool)

  /** The statement built from `text` (the constructor, lines 23-26): the
      text is rewritten, nothing is bound yet, and the statement is open. */
  function Prepare<V>(text: string): (st: Statement<V>)
    ensures st.slots == map[] && !st.closed
    ensures |st.sql| <= |text|
    ensures forall n :: n in st.positions <==> n in Names(Tokens(text))
    ensures forall n :: n in st.positions ==> ValidName(n) && st.positions[n] != []
    ensures Disjoint(st.positions)
  {
    ParsePositions(text);
    var p := Parse(text);
    Statement(p.sql, p.positions, map[], false)
  }

  /** The slot a Java value is bound as: a non-null value as itself, null as
      an SQL NULL of type OTHER. */
  function SlotFor<V>(value: Option<V>): Slot<V> {
    match value
    case Some(v) => Val(v)
    case None => SqlNull(TypesOther)
  }

  /** The positions recorded for `name`, or the error for a name the text
      never mentioned. */
  function ColumnIndexesBy<V>(st: Statement<V>, name: string): (r: Result<seq<nat>>)
    ensures r.Success? <==> name in st.positions
    ensures r.Success? ==> r.value == st.positions[name]
    ensures r.Failure? ==> r.error == ParameterNotFound(name)
  {
    if name in st.positions then Success(st.positions[name]) else Failure(ParameterNotFound(name))
  }

  /** Binds `slot` at every position of `idxs`, in list order. */
  function SetAll<V>(slots: Slots<V>, idxs: seq<nat>, slot: Slot<V>): (r: Slots<V>)
    ensures forall p :: p in r <==> p in slots || p in idxs
    ensures forall p :: p in idxs ==> r[p] == slot
    ensures forall p :: p in slots && p !in idxs ==> r[p] == slots[p]
    decreases |idxs|
  {
    if idxs == [] then slots
    else
      var r := SetAll(slots[idxs[0] := slot], idxs[1..], slot);
      assert forall p :: p in idxs[1..] ==> p in idxs;
      assert forall p :: p in idxs && p != idxs[0] ==> p in idxs[1..];
      r
  }

  /** Binds `value` to every placeholder of `name` (lines 73-80).  The
      positions are looked up first, so an unknown name fails before any
      slot is touched; on a closed statement the driver refuses the first
      position, again before any slot changes. */
  function SetObject<V>(st: Statement<V>, name: string, value: Option<V>): (r: (Statement<V>, Outcome))
    ensures name !in st.positions ==> r == (st, Fail(ParameterNotFound(name)))
    ensures name in st.positions && st.closed && st.positions[name] != [] ==> r == (st, Fail(StatementClosed))
    ensures r.1.Pass? <==> name in st.positions && (!st.closed || st.positions[name] == [])
    ensures r.1.Pass? ==>
      && r.0.sql == st.sql && r.0.positions == st.positions && r.0.closed == st.closed
      && (forall p :: p in r.0.slots <==> p in st.slots || p in st.positions[name])
      && (forall p :: p in st.positions[name] ==> r.0.slots[p] == SlotFor(value))
      && (forall p :: p in st.slots && p !in st.positions[name] ==> r.0.slots[p] == st.slots[p])
  {
    match ColumnIndexesBy(st, name)
    case Failure(e) => (st, Fail(e))
    case Success(idxs) =>
      if st.closed && idxs != [] then (st, Fail(StatementClosed))
      else (st.(slots := SetAll(st.slots, idxs, SlotFor(value))), Pass)
  }

  /** Binding a name twice keeps only the second value. */
  lemma RebindOverwrites<V>(st: Statement<V>, name: string, v1: Option<V>, v2: Option<V>)
    requires SetObject(st, name, v1).1.Pass?
    ensures SetObject(SetObject(st, name, v1).0, name, v2) == SetObject(st, name, v2)
  {
    var once := SetObject(st, name, v2);
    var twice := SetObject(SetObject(st, name, v1).0, name, v2);
    assert twice.0.slots == once.0.slots;
  }

  /** Binding two different names of a statement whose lists are disjoint
      (every prepared statement's are) gives the same slots in either order. */
  lemma BindingsCommute<V>(st: Statement<V>, n1: string, v1: Option<V>, n2: string, v2: Option<V>)
    requires Disjoint(st.positions) && n1 != n2
    requires SetObject(st, n1, v1).1.Pass? && SetObject(st, n2, v2).1.Pass?
    ensures SetObject(SetObject(st, n1, v1).0, n2, v2) == SetObject(SetObject(st, n2, v2).0, n1, v1)
  {
    var a := SetObject(SetObject(st, n1, v1).0, n2, v2);
    var b := SetObject(SetObject(st, n2, v2).0, n1, v1);
    assert a.0.slots == b.0.slots;
  }

  /** Binding one name leaves the placeholders of every other name as they
      were, when the lists are disjoint. */
  lemma BindingIsolated<V>(st: Statement<V>, name: string, value: Option<V>, other: string)
    requires Disjoint(st.positions) && other != name && other in st.positions
    requires SetObject(st, name, value).1.Pass?
    ensures forall p :: p in st.positions[other] ==>
      (p in SetObject(st, name, value).0.slots <==> p in st.slots)
      && (p in st.slots ==> SetObject(st, name, value).0.slots[p] == st.slots[p])
  {
  }

  /** On a prepared statement a name is found exactly when the text has a
      parameter of that name, and its positions are the placeholders that
      stand for it. */
  lemma LookupOfPrepared<V>(text: string, name: string)
    ensures ColumnIndexesBy(Prepare<V>(text), name).Success? <==> name in Names(Tokens(text))
    ensures var ns := Names(Tokens(text));
      ColumnIndexesBy(Prepare<V>(text), name).Success? ==>
        forall p :: p in ColumnIndexesBy(Prepare<V>(text), name).value <==> 1 <= p <= |ns| && ns[p - 1] == name
  {
    ParsePositions(text);
  }
}
