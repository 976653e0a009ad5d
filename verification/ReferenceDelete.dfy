/** executeDelete of fluent.go: the transaction it sends, and the database it leaves. */
module ReferenceDelete {
  import opened Options
  import opened Ovsdb
  import opened ReferenceCleanup
  import Resend

  // ----- the specification: a database without a set of rows

  function AsSet(ids: seq<string>): set<string> {
    set id | id in ids
  }

  predicate IsDead(a: Atom, dead: set<string>) {
    a.Uuid? && a.id in dead
  }

  /** A value without references to the dead rows of `table`. */
  function CleanValue(v: Value, column: ColumnType, table: string, dead: set<string>): Value {
    match (column, v)
    case (SetColumn(key), SetOf(elems)) =>
      SetOf(set a | a in elems && !(Refers(key, table) && IsDead(a, dead)))
    case (MapColumn(key, value), MapOf(entries)) =>
      MapOf(map k | k in entries && !(Refers(key, table) && IsDead(k, dead)) && !(Refers(value, table) && IsDead(entries[k], dead))
            :: entries[k])
    case (_, _) => v
  }

  function CleanRow(row: Row, columns: map<string, ColumnType>, table: string, dead: set<string>): Row
    requires row.Keys == columns.Keys
  {
    map c | c in row :: CleanValue(row[c], columns[c], table, dead)
  }

  ghost predicate RowCleaned(
      db: Database, schema: Schema, table: string, dead: set<string>, next: Database, t: string, id: string)
    requires t in db && t in schema && t in next
  {
    if id in db[t] && !(t == table && id in dead) then
      id in next[t] && RowConforms(db[t][id], schema[t]) && next[t][id] == CleanRow(db[t][id], schema[t], table, dead)
    else id !in next[t]
  }

  /** The dead rows are gone, every other row is cleaned, nothing else changes. */
  ghost predicate IsCleaned(db: Database, schema: Schema, table: string, dead: set<string>, next: Database) {
    && db.Keys == schema.Keys == next.Keys
    && forall t, id :: t in db ==> RowCleaned(db, schema, table, dead, next, t, id)
  }

  /** No set, map or strong scalar column of the schema names a dead row. */
  ghost predicate NoDangling(db: Database, schema: Schema, table: string, dead: set<string>) {
    forall t, id, c, d :: t in db && t in schema && id in db[t] && c in db[t][id] && c in schema[t] && d in dead ==>
      !Dangles(db[t][id][c], schema[t][c], table, d)
  }

  predicate Dangles(v: Value, column: ColumnType, table: string, d: string) {
    match (column, v)
    case (SetColumn(key), SetOf(elems)) => Refers(key, table) && Uuid(d) in elems
    case (MapColumn(key, value), MapOf(entries)) =>
      exists k | k in entries :: (Refers(key, table) && k == Uuid(d)) || (Refers(value, table) && entries[k] == Uuid(d))
    case (ScalarColumn(key), Scalar(a)) => key == Ref(table, Strong) && a == Uuid(d)
    case (_, _) => false
  }

  lemma CleanValueDoesNotDangle(v: Value, column: ColumnType, table: string, dead: set<string>, d: string)
    requires HasShape(v, column) && d in dead
    requires column == ScalarColumn(Ref(table, Strong)) ==> v != Scalar(Uuid(d))
    ensures !Dangles(CleanValue(v, column, table, dead), column, table, d)
  {}

  /** A cleaned database has no dangling reference when no strong scalar blocked the deletion. */
  lemma CleanedHasNoDangling(db: Database, schema: Schema, table: string, dead: set<string>, next: Database)
    requires Conforms(db, schema) && IsCleaned(db, schema, table, dead, next)
    requires forall t, id, c, d :: d in dead ==> !Blocks(db, schema, table, d, t, id, c)
    ensures NoDangling(next, schema, table, dead)
  {
    forall t, id, c, d | t in next && t in schema && id in next[t] && c in next[t][id] && c in schema[t] && d in dead
      ensures !Dangles(next[t][id][c], schema[t][c], table, d)
    {
      assert RowCleaned(db, schema, table, dead, next, t, id);
      assert !Blocks(db, schema, table, d, t, id, c);
      CleanValueDoesNotDangle(db[t][id][c], schema[t][c], table, dead, d);
    }
  }

  // ----- transactions that only take things away

  predicate IsDelete(op: Op) {
    op.Delete? && |op.where| == 1 && op.where[0].UuidIs?
  }

  predicate DeletedBy(ops: seq<Op>, t: string, id: string) {
    exists i :: 0 <= i < |ops| && IsDelete(ops[i]) && ops[i].table == t && ops[i].where[0].id == id
  }

  ghost predicate ShrinksOnly(ops: seq<Op>, db: Database, schema: Schema, table: string) {
    forall i :: 0 <= i < |ops| ==> (IsDelete(ops[i]) && ops[i].table in db) || UnreferencesCell(ops[i], db, schema, table)
  }

  function Shrink(v: Value, atoms: set<Atom>): Value {
    match v
    case SetOf(elems) => SetOf(elems - atoms)
    case MapOf(entries) => MapOf(DeleteKeys(entries, atoms))
    case Scalar(_) => v
  }

  function ShrinkRow(ops: seq<Op>, t: string, id: string, row: Row): Row {
    map c | c in row :: Shrink(row[c], Removed(ops, t, id, c))
  }

  lemma SelectsByUuid(op: Op, id: string, row: Row)
    requires IsDelete(op) || IsUnreference(op)
    ensures Selects(op.where, id, row) <==> op.where[0].id == id
  {
    assert Selects(op.where, id, row) <==> Holds(op.where[0], id, row);
  }

  lemma ShrinkTwice(v: Value, a: set<Atom>, b: set<Atom>)
    ensures Shrink(Shrink(v, a), b) == Shrink(v, a + b)
  {
    match v
    case SetOf(elems) => assert elems - a - b == elems - (a + b);
    case MapOf(entries) => assert entries - a - b == entries - (a + b);
    case Scalar(_) =>
  }

  lemma ShrinkNothing(v: Value)
    ensures Shrink(v, {}) == v
  {
    match v
    case SetOf(elems) => assert elems - {} == elems;
    case MapOf(entries) => assert entries - {} == entries;
    case Scalar(_) =>
  }

  /** One unreference operation on one row. */
  lemma UnreferenceRow(op: Op, t: string, id: string, row: Row)
    requires IsUnreference(op)
    requires op.table == t && op.where[0].id == id ==>
      op.mutations[0].column in row && !row[op.mutations[0].column].Scalar?
    ensures RowStep(op, t, id, Present(row)) == Some(Present(ShrinkRow([op], t, id, row)))
  {
    SelectsByUuid(op, id, row);
    var next := ShrinkRow([op], t, id, row);
    assert [op][1..] == [];
    forall c | c in row
      ensures next[c] == if Unreferences(op, t, id, c) then Shrink(row[c], op.mutations[0].elems) else row[c]
    {
      ShrinkNothing(row[c]);
      assert Removed([op], t, id, c) == if Unreferences(op, t, id, c) then op.mutations[0].elems else {};
    }
    if op.table == t && op.where[0].id == id {
      var c := op.mutations[0].column;
      assert op.mutations[1..] == [];
      assert MutateRow(row, op.mutations) == Some(row[c := Shrink(row[c], op.mutations[0].elems)]);
      assert row[c := Shrink(row[c], op.mutations[0].elems)] == next;
    } else {
      assert next == row;
    }
  }

  lemma ShrinkRowStep(ops: seq<Op>, t: string, id: string, row: Row)
    requires ops != []
    ensures ShrinkRow(ops, t, id, row) == ShrinkRow(ops[1..], t, id, ShrinkRow([ops[0]], t, id, row))
  {
    assert ops == [ops[0]] + ops[1..];
    forall c | c in row
      ensures Shrink(row[c], Removed(ops, t, id, c)) ==
              Shrink(Shrink(row[c], Removed([ops[0]], t, id, c)), Removed(ops[1..], t, id, c))
    {
      RemovedAppend([ops[0]], ops[1..], t, id, c);
      ShrinkTwice(row[c], Removed([ops[0]], t, id, c), Removed(ops[1..], t, id, c));
    }
  }

  lemma DeletedByTail(ops: seq<Op>, t: string, id: string)
    requires ops != []
    ensures DeletedBy(ops, t, id) <==>
      (IsDelete(ops[0]) && ops[0].table == t && ops[0].where[0].id == id) || DeletedBy(ops[1..], t, id)
  {
    if DeletedBy(ops, t, id) {
      var i :| 0 <= i < |ops| && IsDelete(ops[i]) && ops[i].table == t && ops[i].where[0].id == id;
      if i > 0 {
        assert ops[1..][i - 1] == ops[i];
      }
    }
    if DeletedBy(ops[1..], t, id) {
      var i :| 0 <= i < |ops[1..]| && IsDelete(ops[1..][i]) && ops[1..][i].table == t && ops[1..][i].where[0].id == id;
      assert ops[i + 1] == ops[1..][i];
    }
  }

  lemma ShrinkRowNothing(op: Op, t: string, id: string, row: Row)
    requires !IsUnreference(op)
    ensures ShrinkRow([op], t, id, row) == row
  {
    forall c | c in row ensures Shrink(row[c], Removed([op], t, id, c)) == row[c] {
      assert [op][1..] == [];
      ShrinkNothing(row[c]);
    }
  }

  lemma DeleteRow(op: Op, t: string, id: string, row: Row)
    requires IsDelete(op)
    ensures RowStep(op, t, id, Present(row)) == Some(if op.table == t && op.where[0].id == id then Gone else Present(row))
  {
    SelectsByUuid(op, id, row);
  }

  lemma ShrinkConforms(op: Op, t: string, id: string, row: Row, columns: map<string, ColumnType>)
    requires RowConforms(row, columns)
    ensures RowConforms(ShrinkRow([op], t, id, row), columns)
  {}

  /** A row through a shrinking transaction: deleted, or cell by cell without what is removed. */
  lemma {:induction false} RowRunShrinks(
      ops: seq<Op>, db: Database, schema: Schema, table: string, t: string, id: string, row: Row)
    requires ShrinksOnly(ops, db, schema, table) && t in schema && RowConforms(row, schema[t])
    ensures RowRun(ops, t, id, Present(row)) ==
      Some(if DeletedBy(ops, t, id) then Gone else Present(ShrinkRow(ops, t, id, row)))
    decreases |ops|
  {
    if ops == [] {
      forall c | c in row ensures Shrink(row[c], {}) == row[c] { ShrinkNothing(row[c]); }
      assert ShrinkRow(ops, t, id, row) == row;
    } else {
      var op, rest := ops[0], ops[1..];
      assert forall i :: 0 <= i < |rest| ==> rest[i] == ops[i + 1];
      DeletedByTail(ops, t, id);
      ShrinkRowStep(ops, t, id, row);
      if IsDelete(op) {
        ShrinkRowNothing(op, t, id, row);
        DeleteRow(op, t, id, row);
        if op.table == t && op.where[0].id == id {
          GoneStaysGone(rest, t, id);
        } else {
          RowRunShrinks(rest, db, schema, table, t, id, row);
        }
      } else {
        UnreferenceRow(op, t, id, row);
        var next := ShrinkRow([op], t, id, row);
        ShrinkConforms(op, t, id, row, schema[t]);
        RowRunShrinks(rest, db, schema, table, t, id, next);
      }
    }
  }

  // ----- executeDelete

  ghost function ExpectAll(db: Database, schema: Schema, table: string, targets: seq<string>, t: string, id: string, c: string)
    : set<Atom>
  {
    if targets == [] then {}
    else ExpectAll(db, schema, table, targets[..|targets| - 1], t, id, c)
         + Expect(db, schema, table, targets[|targets| - 1], t, id, c)
  }

  /** The transaction removes the targets and exactly the references to them. */
  ghost predicate DeletionDone(ops: seq<Op>, db: Database, schema: Schema, table: string, targets: seq<string>) {
    && ShrinksOnly(ops, db, schema, table)
    && (forall t, id, c :: Removed(ops, t, id, c) == ExpectAll(db, schema, table, targets, t, id, c))
    && (forall t, id :: DeletedBy(ops, t, id) <==> t == table && id in targets)
    && (forall t, id, c, d :: d in targets ==> !Blocks(db, schema, table, d, t, id, c))
  }

  lemma DeletionStep(
      ops: seq<Op>, more: seq<Op>, db: Database, schema: Schema, table: string, targets: seq<string>, k: nat)
    requires k < |targets| && table in db && Conforms(db, schema)
    requires DeletionDone(ops, db, schema, table, targets[..k])
    requires TargetDone(more, db, schema, table, targets[k], db.Keys)
    ensures DeletionDone(ops + more + [Delete(table, [UuidIs(targets[k])])], db, schema, table, targets[..k + 1])
  {
    var del := Delete(table, [UuidIs(targets[k])]);
    var all := ops + more + [del];
    var now := targets[..k + 1];
    assert now[..|now| - 1] == targets[..k] && now[|now| - 1] == targets[k];
    forall i | 0 <= i < |all|
      ensures (IsDelete(all[i]) && all[i].table in db) || UnreferencesCell(all[i], db, schema, table)
    {
      if |ops| <= i < |ops| + |more| {
        assert all[i] == more[i - |ops|];
      }
    }
    forall t, id, c ensures Removed(all, t, id, c) == ExpectAll(db, schema, table, now, t, id, c) {
      RemovedAppend(ops + more, [del], t, id, c);
      RemovedAppend(ops, more, t, id, c);
      assert [del][1..] == [];
    }
    forall t, id ensures DeletedBy(all, t, id) <==> t == table && id in now {
      DeletedByAppend(ops, more, del, t, id);
    }
  }

  lemma DeletedByAppend(ops: seq<Op>, more: seq<Op>, del: Op, t: string, id: string)
    requires IsDelete(del) && forall i :: 0 <= i < |more| ==> IsUnreference(more[i])
    ensures DeletedBy(ops + more + [del], t, id) <==>
      DeletedBy(ops, t, id) || (del.table == t && del.where[0].id == id)
  {
    var all := ops + more + [del];
    assert all[|ops| + |more|] == del;
    assert forall i :: 0 <= i < |ops| ==> all[i] == ops[i];
    assert forall i :: |ops| <= i < |ops| + |more| ==> all[i] == more[i - |ops|];
  }

  /** executeDelete for the rows that the builder's conditions select. */
  method ExecuteDelete(db: Database, schema: Schema, table: string, targets: seq<string>) returns (r: Outcome)
    requires Conforms(db, schema) && table in db
    ensures r.NotFound? <==> targets == []
    ensures r.Conflict? <==> exists t, id, c, d :: d in targets && Blocks(db, schema, table, d, t, id, c)
    ensures r.Ok? ==> DeletionDone(r.ops, db, schema, table, targets)
    ensures r.Ok? ==> Run(db, r.ops).Some? && IsCleaned(db, schema, table, AsSet(targets), Run(db, r.ops).value)
    ensures r.Ok? ==> NoDangling(Run(db, r.ops).value, schema, table, AsSet(targets))
  {
    if |targets| == 0 {
      return NotFound;
    }
    var ops := [];
    for k := 0 to |targets|
      invariant DeletionDone(ops, db, schema, table, targets[..k])
    {
      var more := ReferenceCleanupOps(db, schema, table, targets[k]);
      if more.Conflict? {
        return Conflict;
      }
      DeletionStep(ops, more.ops, db, schema, table, targets, k);
      ops := ops + more.ops + [Delete(table, [UuidIs(targets[k])])];
    }
    assert targets[..|targets|] == targets;
    DeleteLeavesNoDangling(ops, db, schema, table, targets);
    return Ok(ops);
  }

  lemma {:induction false} ExpectAllMembers(
      db: Database, schema: Schema, table: string, targets: seq<string>, t: string, id: string, c: string, a: Atom)
    ensures a in ExpectAll(db, schema, table, targets, t, id, c) <==>
      exists d :: d in targets && a in Expect(db, schema, table, d, t, id, c)
  {
    if targets != [] {
      var n := |targets| - 1;
      ExpectAllMembers(db, schema, table, targets[..n], t, id, c, a);
      assert targets == targets[..n] + [targets[n]];
    }
  }

  /** Taking away what the clean-up expects is the same as cleaning the value. */
  lemma ShrinkIsClean(db: Database, schema: Schema, table: string, targets: seq<string>, t: string, id: string, c: string)
    requires Conforms(db, schema) && t in db && id in db[t] && c in schema[t] && !(t == table && id in targets)
    ensures c in db[t][id]
    ensures Shrink(db[t][id][c], ExpectAll(db, schema, table, targets, t, id, c)) ==
      CleanValue(db[t][id][c], schema[t][c], table, AsSet(targets))
  {
    assert RowConforms(db[t][id], schema[t]);
    var v, gone := db[t][id][c], ExpectAll(db, schema, table, targets, t, id, c);
    var dead := AsSet(targets);
    forall a ensures a in gone <==> exists d :: d in targets && a in Expect(db, schema, table, d, t, id, c) {
      ExpectAllMembers(db, schema, table, targets, t, id, c, a);
    }
    if InfoFor(schema[t][c], table).None? {
      assert gone == {};
      ShrinkNothing(v);
      NothingToClean(v, schema[t][c], table, dead);
    } else {
      StaleIsDead(v, schema[t][c], table, dead, gone);
    }
  }

  /** referenceColumnInfoFor passes over a column only when neither side refers. */
  lemma NothingToClean(v: Value, column: ColumnType, table: string, dead: set<string>)
    requires InfoFor(column, table).None? && HasShape(v, column)
    ensures CleanValue(v, column, table, dead) == v
  {
    match v
    case SetOf(elems) => assert elems == set a | a in elems && !(Refers(column.key, table) && IsDead(a, dead));
    case MapOf(entries) => assert CleanValue(v, column, table, dead).entries == entries;
    case Scalar(_) =>
  }

  lemma StaleIsDead(v: Value, column: ColumnType, table: string, dead: set<string>, gone: set<Atom>)
    requires HasShape(v, column) && InfoFor(column, table).Some?
    requires forall a :: a in gone <==> exists d :: d in dead && a in Stale(v, InfoFor(column, table).value, d)
    ensures Shrink(v, gone) == CleanValue(v, column, table, dead)
  {
    var info := InfoFor(column, table).value;
    match v
    case SetOf(elems) =>
      forall a | a in elems ensures a in gone <==> IsDead(a, dead) {
        if IsDead(a, dead) {
          assert a in Stale(v, info, a.id);
        }
      }
      assert elems - gone == set a | a in elems && !(Refers(column.key, table) && IsDead(a, dead));
    case MapOf(entries) =>
      forall k | k in entries
        ensures k in gone <==>
          (Refers(column.key, table) && IsDead(k, dead)) || (Refers(column.value, table) && IsDead(entries[k], dead))
      {
        if Refers(column.key, table) && IsDead(k, dead) {
          assert k in Stale(v, info, k.id);
        } else if Refers(column.value, table) && IsDead(entries[k], dead) {
          assert k in Stale(v, info, entries[k].id);
        }
      }
      assert (entries - gone) == CleanValue(v, column, table, dead).entries;
    case Scalar(_) =>
  }

  /** Running the transaction of executeDelete commits; the targets are gone, every
      other row has lost exactly its references to them, also when targets refer to each
      other, and nothing dangles. */
  lemma DeleteLeavesNoDangling(ops: seq<Op>, db: Database, schema: Schema, table: string, targets: seq<string>)
    requires Conforms(db, schema) && table in db && DeletionDone(ops, db, schema, table, targets)
    ensures Run(db, ops).Some?
    ensures IsCleaned(db, schema, table, AsSet(targets), Run(db, ops).value)
    ensures NoDangling(Run(db, ops).value, schema, table, AsSet(targets))
  {
    var dead := AsSet(targets);
    forall t, id | t in db && id in db[t] ensures RowRun(ops, t, id, Present(db[t][id])).Some? {
      assert RowConforms(db[t][id], schema[t]);
      RowRunShrinks(ops, db, schema, table, t, id, db[t][id]);
    }
    RunCommits(db, ops);
    var next := Run(db, ops).value;
    RunRows(db, ops, table, "");
    forall t, id | t in db ensures RowCleaned(db, schema, table, dead, next, t, id) {
      RunRows(db, ops, t, id);
      if id in db[t] {
        CleanedRow(ops, db, schema, table, targets, t, id);
      }
    }
    CleanedHasNoDangling(db, schema, table, dead, next);
  }

  lemma CleanedRow(
      ops: seq<Op>, db: Database, schema: Schema, table: string, targets: seq<string>, t: string, id: string)
    requires Conforms(db, schema) && DeletionDone(ops, db, schema, table, targets) && t in db && id in db[t]
    ensures RowConforms(db[t][id], schema[t])
    ensures RowRun(ops, t, id, Present(db[t][id])) ==
      Some(if t == table && id in targets then Gone
           else Present(CleanRow(db[t][id], schema[t], table, AsSet(targets))))
  {
    var row := db[t][id];
    assert RowConforms(row, schema[t]);
    RowRunShrinks(ops, db, schema, table, t, id, row);
    if !(t == table && id in targets) {
      forall c | c in row
        ensures Shrink(row[c], Removed(ops, t, id, c)) == CleanValue(row[c], schema[t][c], table, AsSet(targets))
      {
        ShrinkIsClean(db, schema, table, targets, t, id, c);
      }
      assert ShrinkRow(ops, t, id, row) == CleanRow(row, schema[t], table, AsSet(targets));
    }
  }

  // ----- what that means for one cell

  /** The atom names a deleted row of the table, and this side of the column refers to it. */
  predicate NamesDead(side: BaseType, a: Atom, table: string, targets: seq<string>) {
    side.Ref? && side.table == table && a.Uuid? && a.id in targets
  }

  /** After a delete, whatever referenceColumnInfoFor made of the columns: in every row that is
      left, a set has lost exactly the elements, and a map exactly the entries, that name a
      deleted row on a side that refers to the table; scalars are unchanged, and no strong one
      names a deleted row. */
  lemma DeleteCellByCell(
      ops: seq<Op>, db: Database, schema: Schema, table: string, targets: seq<string>, t: string, id: string, c: string)
    requires Conforms(db, schema) && table in db && DeletionDone(ops, db, schema, table, targets)
    requires t in db && id in db[t] && c in schema[t] && !(t == table && id in targets)
    ensures Run(db, ops).Some? && c in db[t][id]
    ensures var next := Run(db, ops).value;
      t in next && id in next[t] && c in next[t][id]
    ensures var was, now := db[t][id][c], Run(db, ops).value[t][id][c];
      match schema[t][c]
      case SetColumn(key) =>
        was.SetOf? && now.SetOf? && forall a :: a in now.elems <==> a in was.elems && !NamesDead(key, a, table, targets)
      case MapColumn(key, value) =>
        was.MapOf? && now.MapOf? &&
        (forall k :: k in now.entries <==>
          k in was.entries && !NamesDead(key, k, table, targets) && !NamesDead(value, was.entries[k], table, targets)) &&
        (forall k :: k in now.entries ==> now.entries[k] == was.entries[k])
      case ScalarColumn(key) =>
        now == was && now.Scalar? && (NamesDead(key, now.atom, table, targets) ==> key.kind.Weak?)
  {
    DeleteLeavesNoDangling(ops, db, schema, table, targets);
    var next := Run(db, ops).value;
    assert RowConforms(db[t][id], schema[t]);
    assert RowCleaned(db, schema, table, AsSet(targets), next, t, id);
    var v := db[t][id][c];
    assert next[t][id][c] == CleanValue(v, schema[t][c], table, AsSet(targets));
    if v.Scalar? && v.atom.Uuid? && v.atom.id in targets {
      assert !Blocks(db, schema, table, v.atom.id, t, id, c);
    }
  }

  /** The transaction of a delete is resent after a disconnect, and on any database, whatever
      has happened to it in between, arriving twice is the same as arriving once. */
  lemma DeleteResendIsHarmless(db: Database, schema: Schema, table: string, targets: seq<string>, ops: seq<Op>, later: Database)
    requires targets != [] && DeletionDone(ops, db, schema, table, targets)
    ensures Resend.CanRetry(ops)
    ensures Commit(Commit(later, ops), ops) == Commit(later, ops)
  {
    assert DeletedBy(ops, table, targets[0]);
    forall i | 0 <= i < |ops|
      ensures !ops[i].Insert? && Resend.DeletesByKey(ops[i])
      ensures forall k :: 0 <= k < |ops[i].where| ==> ops[i].where[k].UuidIs?
    {
      assert IsDelete(ops[i]) || UnreferencesCell(ops[i], db, schema, table);
    }
    Resend.UuidSelectionIsStable(ops);
    Resend.ResendIsHarmless(later, ops);
  }
}
