/** An abstract OVSDB server.  Rows are addressed by table and UUID; operations follow
    sections 5.1 and 5.2 of RFC 7047: mutations are applied in order, a map "insert"
    keeps existing keys, and a transaction with a failing operation changes nothing. */
module Ovsdb {
  import opened Options

  datatype Atom = Uuid(id: string) | Text(s: string) | Number(n: int)
  datatype Value = Scalar(atom: Atom) | SetOf(elems: set<Atom>) | MapOf(entries: map<Atom, Atom>)

  type Row = map<string, Value>
  type Table = map<string, Row>
  type Database = map<string, Table>

  // ----- mutations

  /** Map "insert": existing keys keep their values. */
  function InsertEntries<K, V>(m: map<K, V>, add: map<K, V>): map<K, V> {
    add + m
  }

  /** Map "delete" with a set of keys. */
  function DeleteKeys<K, V>(m: map<K, V>, keys: set<K>): map<K, V> {
    m - keys
  }

  datatype Mutation =
    | InsertSet(column: string, elems: set<Atom>)
    | InsertMap(column: string, entries: map<Atom, Atom>)
    | DeleteElems(column: string, elems: set<Atom>)
    | DeletePairs(column: string, entries: map<Atom, Atom>)

  /** None when the mutator does not apply to the column's type. */
  function MutateValue(v: Value, m: Mutation): Option<Value> {
    match (m, v)
    case (InsertSet(_, add), SetOf(s)) => Some(SetOf(s + add))
    case (InsertMap(_, add), MapOf(es)) => Some(MapOf(InsertEntries(es, add)))
    case (DeleteElems(_, drop), SetOf(s)) => Some(SetOf(s - drop))
    case (DeleteElems(_, drop), MapOf(es)) => Some(MapOf(DeleteKeys(es, drop)))
    case (DeletePairs(_, drop), MapOf(es)) =>
      Some(MapOf(map k | k in es && !(k in drop && drop[k] == es[k]) :: es[k]))
    case (_, _) => None
  }

  function MutateRow(row: Row, ms: seq<Mutation>): Option<Row> {
    if ms == [] then Some(row)
    else if ms[0].column !in row then None
    else match MutateValue(row[ms[0].column], ms[0])
      case None => None
      case Some(v) => MutateRow(row[ms[0].column := v], ms[1..])
  }

  // ----- operations

  /** A condition tests the UUID or one column. */
  datatype Condition = UuidIs(id: string) | ColumnTest(column: string, test: Value -> bool)

  predicate Holds(c: Condition, id: string, row: Row) {
    match c
    case UuidIs(want) => id == want
    case ColumnTest(column, test) => column in row && test(row[column])
  }

  predicate Selects(where: seq<Condition>, id: string, row: Row) {
    forall i :: 0 <= i < |where| ==> Holds(where[i], id, row)
  }

  datatype Op =
    | Insert(table: string, uuid: string, row: Row)
    | Update(table: string, where: seq<Condition>, row: Row)
    | Mutate(table: string, where: seq<Condition>, mutations: seq<Mutation>)
    | Delete(table: string, where: seq<Condition>)
    | Wait(table: string, where: seq<Condition>, columns: set<string>, rows: set<Row>)
    | Select(table: string, where: seq<Condition>)

  datatype RowState = Present(row: Row) | Gone

  /** What an operation does to one existing row; None is an error. */
  function RowStep(op: Op, table: string, id: string, s: RowState): Option<RowState> {
    if s.Gone? || op.table != table then Some(s)
    else match op
      case Update(_, where, row) =>
        if !Selects(where, id, s.row) then Some(s)
        else if row.Keys <= s.row.Keys then Some(Present(s.row + row)) else None
      case Mutate(_, where, ms) =>
        if !Selects(where, id, s.row) then Some(s)
        else (match MutateRow(s.row, ms) case None => None case Some(next) => Some(Present(next)))
      case Delete(_, where) => if Selects(where, id, s.row) then Some(Gone) else Some(s)
      case _ => Some(s)
  }

  /** "wait" until the selected rows, restricted to the columns, are the given ones. */
  ghost predicate WaitHolds(op: Op, rows: Table)
    requires op.Wait?
  {
    (set id | id in rows && Selects(op.where, id, rows[id]) :: map c | c in op.columns && c in rows[id] :: rows[id][c])
      == op.rows
  }

  ghost function Step(op: Op, db: Database): Option<Database> {
    if op.table !in db then None
    else
      var rows := db[op.table];
      if op.Insert? then
        if op.uuid in rows then None else Some(db[op.table := rows[op.uuid := op.row]])
      else if op.Wait? && !WaitHolds(op, rows) then None
      else if exists id :: id in rows && RowStep(op, op.table, id, Present(rows[id])).None? then None
      else Some(db[op.table :=
        map id | id in rows && RowStep(op, op.table, id, Present(rows[id])).value.Present?
          :: RowStep(op, op.table, id, Present(rows[id])).value.row])
  }

  ghost function Run(db: Database, ops: seq<Op>): Option<Database>
    decreases |ops|
  {
    if ops == [] then Some(db)
    else match Step(ops[0], db)
      case None => None
      case Some(next) => Run(next, ops[1..])
  }

  /** The database after a transaction: an aborted one changes nothing. */
  ghost function Commit(db: Database, ops: seq<Op>): Database {
    match Run(db, ops)
    case None => db
    case Some(next) => next
  }

  // ----- one row through a whole transaction

  function RowRun(ops: seq<Op>, table: string, id: string, s: RowState): Option<RowState>
    decreases |ops|
  {
    if ops == [] then Some(s)
    else match RowStep(ops[0], table, id, s)
      case None => None
      case Some(next) => RowRun(ops[1..], table, id, next)
  }

  lemma {:induction false} GoneStaysGone(ops: seq<Op>, table: string, id: string)
    ensures RowRun(ops, table, id, Gone) == Some(Gone)
    decreases |ops|
  {
    if ops != [] {
      GoneStaysGone(ops[1..], table, id);
    }
  }

  /** The fate of a row that is in the database before the transaction. */
  ghost predicate RowFate(db: Database, ops: seq<Op>, next: Database, table: string, id: string)
    requires table in db && table in next
  {
    if id in db[table] then
      RowRun(ops, table, id, Present(db[table][id])) ==
        Some(if id in next[table] then Present(next[table][id]) else Gone)
    else id !in next[table]
  }

  lemma StepFate(db: Database, op: Op, table: string, id: string)
    requires !op.Insert? && Step(op, db).Some? && table in db
    ensures var next := Step(op, db).value;
      next.Keys == db.Keys &&
      if id in db[table] then
        RowStep(op, table, id, Present(db[table][id])) ==
          Some(if id in next[table] then Present(next[table][id]) else Gone)
      else id !in next[table]
  {}

  /** Without inserts, a committed transaction treats every row on its own. */
  lemma {:induction false} RunRows(db: Database, ops: seq<Op>, table: string, id: string)
    requires forall i :: 0 <= i < |ops| ==> !ops[i].Insert?
    requires Run(db, ops).Some? && table in db
    ensures Run(db, ops).value.Keys == db.Keys
    ensures RowFate(db, ops, Run(db, ops).value, table, id)
    decreases |ops|
  {
    if ops != [] {
      var next := Step(ops[0], db).value;
      StepFate(db, ops[0], table, id);
      RunRows(next, ops[1..], table, id);
      if id in db[table] && id !in next[table] {
        GoneStaysGone(ops[1..], table, id);
      }
    }
  }

  /** A transaction without inserts and waits commits when no row runs into an error. */
  lemma {:induction false} RunCommits(db: Database, ops: seq<Op>)
    requires forall i :: 0 <= i < |ops| ==> !ops[i].Insert? && !ops[i].Wait? && ops[i].table in db
    requires forall t, id :: t in db && id in db[t] ==> RowRun(ops, t, id, Present(db[t][id])).Some?
    ensures Run(db, ops).Some?
    decreases |ops|
  {
    if ops != [] {
      var op := ops[0];
      forall id | id in db[op.table] ensures RowStep(op, op.table, id, Present(db[op.table][id])).Some? {
        assert RowRun(ops, op.table, id, Present(db[op.table][id])).Some?;
      }
      var next := Step(op, db).value;
      forall t, id | t in next && id in next[t] ensures RowRun(ops[1..], t, id, Present(next[t][id])).Some? {
        StepFate(db, op, t, id);
        assert RowRun(ops, t, id, Present(db[t][id])).Some?;
      }
      RunCommits(next, ops[1..]);
    }
  }

  lemma RunPair(db: Database, a: Op, b: Op)
    ensures Run(db, [a, b]) ==
      match Step(a, db) case None => None case Some(next) => Step(b, next)
  {
    assert [a, b][1..] == [b] && [b][1..] == [];
    if Step(a, db).Some? && Step(b, Step(a, db).value).Some? {
      assert Run(Step(b, Step(a, db).value).value, []) == Step(b, Step(a, db).value);
    }
  }
}
