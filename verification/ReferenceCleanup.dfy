/** Deleting rows with reference clean-up: executeDelete and referenceCleanupOps of
    fluent.go, referenceColumnInfoFor of schema.go and ovsMapDeleteKeysForUUID of
    ovs_runtime.go, run on the abstract database. */
module ReferenceCleanup {
  import opened Options
  import opened Ovsdb

  // ----- schema

  datatype RefType = Strong | Weak
  datatype BaseType = Plain | Ref(table: string, kind: RefType)
  datatype ColumnType =
    | ScalarColumn(key: BaseType)
    | SetColumn(key: BaseType)
    | MapColumn(key: BaseType, value: BaseType)

  type Schema = map<string, map<string, ColumnType>>

  datatype RefKind = ScalarRef | SetRef | MapRef
  datatype Info = Info(kind: RefKind, keyRef: bool, valueRef: bool, reference: RefType)

  predicate Refers(base: BaseType, table: string) {
    base.Ref? && base.table == table
  }

  /** referenceColumnInfoFor: None when the column does not refer to the table. */
  function InfoFor(column: ColumnType, table: string): Option<Info> {
    var keyRef := Refers(column.key, table);
    var valueRef := column.MapColumn? && Refers(column.value, table);
    if !keyRef && !valueRef then None
    else match column
      case MapColumn(key, value) =>
        Some(Info(MapRef, keyRef, valueRef, if valueRef then value.kind else key.kind))
      case SetColumn(key) => Some(Info(SetRef, keyRef, valueRef, key.kind))
      case ScalarColumn(key) => Some(Info(ScalarRef, keyRef, valueRef, key.kind))
  }

  predicate HasShape(v: Value, column: ColumnType) {
    match column
    case ScalarColumn(_) => v.Scalar?
    case SetColumn(_) => v.SetOf?
    case MapColumn(_, _) => v.MapOf?
  }

  ghost predicate RowConforms(row: Row, columns: map<string, ColumnType>) {
    row.Keys == columns.Keys && forall c :: c in columns ==> HasShape(row[c], columns[c])
  }

  /** Every row has exactly the columns of its table, with values of the right shape. */
  ghost predicate Conforms(db: Database, schema: Schema) {
    && db.Keys == schema.Keys
    && forall t, id :: t in db && id in db[t] ==> RowConforms(db[t][id], schema[t])
  }

  // ----- what has to go

  predicate NamesTarget(k: Atom, v: Atom, info: Info, target: string) {
    (info.keyRef && k == Uuid(target)) || (info.valueRef && v == Uuid(target))
  }

  /** The keys or elements that have to leave a reference column when `target` goes. */
  function Stale(v: Value, info: Info, target: string): set<Atom> {
    match info.kind
    case MapRef =>
      if v.MapOf? then set k | k in v.entries && NamesTarget(k, v.entries[k], info, target) else {}
    case SetRef => if v.SetOf? && Uuid(target) in v.elems then {Uuid(target)} else {}
    case ScalarRef => {}
  }

  /** The row of a target itself is skipped: it is deleted anyway. */
  predicate IsSelf(table: string, target: string, t: string, id: string) {
    t == table && id == target
  }

  /** What the clean-up for one target takes from one cell. */
  ghost function Expect(db: Database, schema: Schema, table: string, target: string, t: string, id: string, c: string)
    : set<Atom>
  {
    if t in db && t in schema && id in db[t] && c in db[t][id] && c in schema[t] &&
       !IsSelf(table, target, t, id) && InfoFor(schema[t][c], table).Some?
    then Stale(db[t][id][c], InfoFor(schema[t][c], table).value, target)
    else {}
  }

  /** A strong scalar column of another row names the target. */
  ghost predicate Blocks(db: Database, schema: Schema, table: string, target: string, t: string, id: string, c: string) {
    && t in db && t in schema && id in db[t] && c in db[t][id] && c in schema[t]
    && !IsSelf(table, target, t, id)
    && schema[t][c] == ScalarColumn(Ref(table, Strong)) && db[t][id][c] == Scalar(Uuid(target))
  }

  /** What has to leave a cell, on the types of its column: the target as an element of a set
      that refers to its table, and the keys of the map entries that name it on a side that
      does.  Nothing leaves a scalar. */
  predicate HasToGo(v: Value, column: ColumnType, table: string, target: string, a: Atom) {
    match (column, v)
    case (SetColumn(key), SetOf(elems)) => Refers(key, table) && a == Uuid(target) && a in elems
    case (MapColumn(key, value), MapOf(entries)) =>
      a in entries && ((Refers(key, table) && a == Uuid(target)) || (Refers(value, table) && entries[a] == Uuid(target)))
    case (_, _) => false
  }

  lemma ExpectExact(db: Database, schema: Schema, table: string, target: string, t: string, id: string, c: string, a: Atom)
    requires Conforms(db, schema) && t in db && id in db[t] && c in schema[t]
    ensures c in db[t][id]
    ensures a in Expect(db, schema, table, target, t, id, c) <==>
      !IsSelf(table, target, t, id) && HasToGo(db[t][id][c], schema[t][c], table, target, a)
  {
    assert RowConforms(db[t][id], schema[t]);
  }

  // ----- the operations

  /** ovsUnreferenceUUIDSetOp and ovsUnreferenceMapOp. */
  function Unreference(table: string, column: string, referrer: string, atoms: set<Atom>): Op {
    Mutate(table, [UuidIs(referrer)], [DeleteElems(column, atoms)])
  }

  predicate IsUnreference(op: Op) {
    && op.Mutate? && |op.where| == 1 && op.where[0].UuidIs?
    && |op.mutations| == 1 && op.mutations[0].DeleteElems?
  }

  predicate Unreferences(op: Op, t: string, id: string, c: string) {
    IsUnreference(op) && op.table == t && op.where[0].id == id && op.mutations[0].column == c
  }

  function Removed(ops: seq<Op>, t: string, id: string, c: string): set<Atom> {
    if ops == [] then {}
    else (if Unreferences(ops[0], t, id, c) then ops[0].mutations[0].elems else {}) + Removed(ops[1..], t, id, c)
  }

  lemma {:induction false} RemovedAppend(a: seq<Op>, b: seq<Op>, t: string, id: string, c: string)
    ensures Removed(a + b, t, id, c) == Removed(a, t, id, c) + Removed(b, t, id, c)
  {
    if a == [] {
      assert a + b == b;
    } else {
      assert (a + b)[1..] == a[1..] + b;
      RemovedAppend(a[1..], b, t, id, c);
    }
  }

  /** An operation that takes something from a set or map reference column. */
  ghost predicate UnreferencesCell(op: Op, db: Database, schema: Schema, table: string) {
    && IsUnreference(op) && op.table in db && op.table in schema
    && op.mutations[0].column in schema[op.table]
    && InfoFor(schema[op.table][op.mutations[0].column], table).Some?
    && !InfoFor(schema[op.table][op.mutations[0].column], table).value.kind.ScalarRef?
  }

  ghost predicate UnreferencesOnly(ops: seq<Op>, db: Database, schema: Schema, table: string) {
    forall i :: 0 <= i < |ops| ==> UnreferencesCell(ops[i], db, schema, table)
  }

  datatype Outcome = Ok(ops: seq<Op>) | Conflict | NotFound

  /** ovsMapDeleteKeysForUUID. */
  method MapDeleteKeys(entries: map<Atom, Atom>, target: string, info: Info) returns (keys: seq<Atom>)
    ensures (set k | k in keys) == set k | k in entries && NamesTarget(k, entries[k], info, target)
  {
    keys := [];
    var rest := entries.Keys;
    while rest != {}
      invariant rest <= entries.Keys
      invariant forall k :: k in keys <==> k in entries && k !in rest && NamesTarget(k, entries[k], info, target)
      decreases rest
    {
      var k :| k in rest;
      rest := rest - {k};
      if info.keyRef && k == Uuid(target) {
        keys := keys + [k];
        continue;
      }
      if info.valueRef && entries[k] == Uuid(target) {
        keys := keys + [k];
      }
    }
  }

  /** The cells of column c that have been handled: those of the rows in `done`. */
  ghost predicate ColumnDone(
      ops: seq<Op>, db: Database, schema: Schema, table: string, target: string, t: string, c: string, done: set<string>)
  {
    && UnreferencesOnly(ops, db, schema, table)
    && (forall t', id, c' :: Removed(ops, t', id, c') ==
          if t' == t && c' == c && id in done then Expect(db, schema, table, target, t, id, c) else {})
    && (forall id :: id in done ==> !Blocks(db, schema, table, target, t, id, c))
  }

  lemma ColumnStep(
      ops: seq<Op>, more: seq<Op>, db: Database, schema: Schema, table: string, target: string,
      t: string, c: string, done: set<string>, id: string)
    requires ColumnDone(ops, db, schema, table, target, t, c, done) && id !in done
    requires UnreferencesOnly(more, db, schema, table) && !Blocks(db, schema, table, target, t, id, c)
    requires (more == [] && Expect(db, schema, table, target, t, id, c) == {}) ||
             more == [Unreference(t, c, id, Expect(db, schema, table, target, t, id, c))]
    ensures ColumnDone(ops + more, db, schema, table, target, t, c, done + {id})
  {
    forall t', id', c' ensures Removed(ops + more, t', id', c') ==
      if t' == t && c' == c && id' in done + {id} then Expect(db, schema, table, target, t, id', c) else {}
    {
      RemovedAppend(ops, more, t', id', c');
      if more != [] {
        assert more[1..] == [];
      }
    }
  }

  /** The three cases of the switch in referenceCleanupOps for one row. */
  method CellOps(db: Database, schema: Schema, table: string, target: string, t: string, c: string, id: string, info: Info)
    returns (r: Outcome)
    requires Conforms(db, schema) && t in db && c in schema[t] && id in db[t]
    requires InfoFor(schema[t][c], table) == Some(info)
    ensures !r.NotFound?
    ensures r.Conflict? <==> Blocks(db, schema, table, target, t, id, c)
    ensures r.Ok? ==> var atoms := Expect(db, schema, table, target, t, id, c);
      && r.ops == (if atoms == {} then [] else [Unreference(t, c, id, atoms)])
      && UnreferencesOnly(r.ops, db, schema, table)
  {
    assert RowConforms(db[t][id], schema[t]);
    var value := db[t][id][c];
    if IsSelf(table, target, t, id) {
      return Ok([]);
    }
    match info.kind {
      case MapRef =>
        var keys := MapDeleteKeys(value.entries, target, info);
        var drop := set k | k in keys;
        assert drop == Expect(db, schema, table, target, t, id, c);
        if |keys| == 0 {
          assert drop == {};
          return Ok([]);
        }
        assert keys[0] in drop;
        return Ok([Unreference(t, c, id, drop)]);
      case SetRef =>
        return Ok(if Uuid(target) in value.elems then [Unreference(t, c, id, {Uuid(target)})] else []);
      case ScalarRef =>
        return if info.reference.Strong? && value == Scalar(Uuid(target)) then Conflict else Ok([]);
    }
  }

  /** The rows of one column. */
  method ColumnOps(db: Database, schema: Schema, table: string, target: string, t: string, c: string) returns (r: Outcome)
    requires Conforms(db, schema) && t in db && c in schema[t] && InfoFor(schema[t][c], table).Some?
    ensures !r.NotFound?
    ensures r.Ok? ==> ColumnDone(r.ops, db, schema, table, target, t, c, db[t].Keys)
    ensures r.Conflict? ==> exists id :: Blocks(db, schema, table, target, t, id, c)
  {
    var info := InfoFor(schema[t][c], table).value;
    var ops := [];
    var rest := db[t].Keys;
    ghost var done: set<string> := {};
    while rest != {}
      invariant rest <= db[t].Keys && done == db[t].Keys - rest
      invariant ColumnDone(ops, db, schema, table, target, t, c, done)
      decreases rest
    {
      var id :| id in rest;
      rest := rest - {id};
      var more := CellOps(db, schema, table, target, t, c, id, info);
      if more.Conflict? {
        return Conflict;
      }
      ColumnStep(ops, more.ops, db, schema, table, target, t, c, done, id);
      ops, done := ops + more.ops, done + {id};
    }
    return Ok(ops);
  }

  ghost predicate TableDone(
      ops: seq<Op>, db: Database, schema: Schema, table: string, target: string, t: string, columns: set<string>)
  {
    && UnreferencesOnly(ops, db, schema, table)
    && (forall t', id, c :: Removed(ops, t', id, c) ==
          if t' == t && c in columns then Expect(db, schema, table, target, t, id, c) else {})
    && (forall id, c :: c in columns ==> !Blocks(db, schema, table, target, t, id, c))
  }

  lemma TableStep(
      ops: seq<Op>, more: seq<Op>, db: Database, schema: Schema, table: string, target: string,
      t: string, columns: set<string>, c: string)
    requires t in db && c !in columns && TableDone(ops, db, schema, table, target, t, columns)
    requires ColumnDone(more, db, schema, table, target, t, c, db[t].Keys)
    ensures TableDone(ops + more, db, schema, table, target, t, columns + {c})
  {
    forall t', id, c' ensures Removed(ops + more, t', id, c') ==
      if t' == t && c' in columns + {c} then Expect(db, schema, table, target, t, id, c') else {}
    {
      RemovedAppend(ops, more, t', id, c');
    }
  }

  /** The loop over the reference columns of one table. */
  method TableOps(db: Database, schema: Schema, table: string, target: string, t: string) returns (r: Outcome)
    requires Conforms(db, schema) && t in db
    ensures !r.NotFound?
    ensures r.Ok? ==> TableDone(r.ops, db, schema, table, target, t, schema[t].Keys)
    ensures r.Conflict? ==> exists id, c :: Blocks(db, schema, table, target, t, id, c)
  {
    var ops := [];
    var rest := schema[t].Keys;
    ghost var done: set<string> := {};
    while rest != {}
      invariant rest <= schema[t].Keys && done == schema[t].Keys - rest
      invariant TableDone(ops, db, schema, table, target, t, done)
      decreases rest
    {
      var c :| c in rest;
      rest := rest - {c};
      var more := [];
      if InfoFor(schema[t][c], table).Some? {
        var column := ColumnOps(db, schema, table, target, t, c);
        if column.Conflict? {
          return Conflict;
        }
        more := column.ops;
      }
      TableStep(ops, more, db, schema, table, target, t, done, c);
      ops, done := ops + more, done + {c};
    }
    return Ok(ops);
  }

  /** The clean-up of one target over a set of tables is complete and exact. */
  ghost predicate TargetDone(
      ops: seq<Op>, db: Database, schema: Schema, table: string, target: string, tables: set<string>)
  {
    && UnreferencesOnly(ops, db, schema, table)
    && (forall t, id, c :: Removed(ops, t, id, c) ==
          if t in tables then Expect(db, schema, table, target, t, id, c) else {})
    && (forall t, id, c :: t in tables ==> !Blocks(db, schema, table, target, t, id, c))
  }

  lemma TargetStep(
      ops: seq<Op>, more: seq<Op>, db: Database, schema: Schema, table: string, target: string, tables: set<string>, t: string)
    requires t in db && t in schema && db.Keys == schema.Keys && t !in tables
    requires forall id :: id in db[t] ==> db[t][id].Keys == schema[t].Keys
    requires TargetDone(ops, db, schema, table, target, tables)
    requires TableDone(more, db, schema, table, target, t, schema[t].Keys)
    ensures TargetDone(ops + more, db, schema, table, target, tables + {t})
  {
    forall t', id, c ensures Removed(ops + more, t', id, c) ==
      if t' in tables + {t} then Expect(db, schema, table, target, t', id, c) else {}
    {
      RemovedAppend(ops, more, t', id, c);
    }
  }

  /** referenceCleanupOps. */
  method ReferenceCleanupOps(db: Database, schema: Schema, table: string, target: string) returns (r: Outcome)
    requires Conforms(db, schema)
    ensures !r.NotFound?
    ensures r.Ok? ==> TargetDone(r.ops, db, schema, table, target, db.Keys)
    ensures r.Conflict? ==> exists t, id, c :: Blocks(db, schema, table, target, t, id, c)
  {
    var ops := [];
    var rest := schema.Keys;
    ghost var done: set<string> := {};
    while rest != {}
      invariant rest <= schema.Keys && done == schema.Keys - rest
      invariant TargetDone(ops, db, schema, table, target, done)
      decreases rest
    {
      var t :| t in rest;
      rest := rest - {t};
      var more := TableOps(db, schema, table, target, t);
      if more.Conflict? {
        return Conflict;
      }
      TargetStep(ops, more.ops, db, schema, table, target, done, t);
      ops, done := ops + more.ops, done + {t};
    }
    return Ok(ops);
  }
}
