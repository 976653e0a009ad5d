/** mutateOpenVSwitchExternalIDsCAS of ovs_runtime.go as a transaction on the abstract
    database: a wait on external_ids followed by the mutations. */
module MappingSwap {
  import opened Options
  import opened Ovsdb
  import opened MappingOwnership

  const ROOT_TABLE := "Open_vSwitch"
  const EXTERNAL_IDS := "external_ids"

  function TextMap(m: ExternalIDs): map<Atom, Atom> {
    map k | k in m :: Text(k) := Text(m[k])
  }

  function TextSet(keys: set<string>): set<Atom> {
    set k | k in keys :: Text(k)
  }

  lemma TextMapInjective(m: ExternalIDs, n: ExternalIDs)
    ensures TextMap(m) == TextMap(n) ==> m == n
  {
    if TextMap(m) == TextMap(n) {
      forall k ensures k in m <==> k in n {
        assert k in m <==> Text(k) in TextMap(m);
        assert k in n <==> Text(k) in TextMap(n);
      }
      forall k | k in m ensures m[k] == n[k] {
        assert TextMap(m)[Text(k)] == Text(m[k]) && TextMap(n)[Text(k)] == Text(n[k]);
      }
    }
  }

  lemma TextMapMutations(ids: ExternalIDs, deletes: set<string>, inserts: ExternalIDs)
    ensures DeleteKeys(TextMap(ids), TextSet(deletes)) == TextMap(DeleteKeys(ids, deletes))
    ensures InsertEntries(TextMap(ids), TextMap(inserts)) == TextMap(InsertEntries(ids, inserts))
  {}

  function SwapMutations(edit: Edit): seq<Mutation>
    requires edit.Change?
  {
    [DeleteElems(EXTERNAL_IDS, TextSet(edit.deletes))]
    + if edit.inserts == map[] then [] else [InsertMap(EXTERNAL_IDS, TextMap(edit.inserts))]
  }

  ghost function SwapOps(root: string, snapshot: ExternalIDs, edit: Edit): seq<Op>
    requires edit.Change?
  {
    [Wait(ROOT_TABLE, [UuidIs(root)], {EXTERNAL_IDS}, {map[EXTERNAL_IDS := MapOf(TextMap(snapshot))]}),
     Mutate(ROOT_TABLE, [UuidIs(root)], SwapMutations(edit))]
  }

  lemma MutateFirst(row: Row, m: Mutation, rest: seq<Mutation>, v: Value)
    requires m.column in row && MutateValue(row[m.column], m) == Some(v)
    ensures MutateRow(row, [m] + rest) == MutateRow(row[m.column := v], rest)
  {
    assert ([m] + rest)[1..] == rest;
  }

  /** Delete keys and, unless there is nothing to insert, insert entries. */
  lemma DeleteThenInsert(row: Row, c: string, entries: map<Atom, Atom>, drop: set<Atom>, add: map<Atom, Atom>, any: bool)
    requires c in row && row[c] == MapOf(entries) && (any || add == map[])
    ensures MutateRow(row, [DeleteElems(c, drop)] + if any then [InsertMap(c, add)] else []) ==
      Some(row[c := MapOf(InsertEntries(DeleteKeys(entries, drop), add))])
  {
    var kept := DeleteKeys(entries, drop);
    var mid := row[c := MapOf(kept)];
    MutateFirst(row, DeleteElems(c, drop), if any then [InsertMap(c, add)] else [], MapOf(kept));
    if any {
      MutateFirst(mid, InsertMap(c, add), [], MapOf(InsertEntries(kept, add)));
      assert [InsertMap(c, add)] + [] == [InsertMap(c, add)];
      assert mid[c := MapOf(InsertEntries(kept, add))] == row[c := MapOf(InsertEntries(kept, add))];
    } else {
      assert InsertEntries(kept, add) == kept;
    }
  }

  lemma SwapRow(row: Row, ids: ExternalIDs, edit: Edit)
    requires edit.Change? && EXTERNAL_IDS in row && row[EXTERNAL_IDS] == MapOf(TextMap(ids))
    ensures MutateRow(row, SwapMutations(edit)) == Some(row[EXTERNAL_IDS := MapOf(TextMap(Apply(ids, edit)))])
  {
    DeleteThenInsert(row, EXTERNAL_IDS, TextMap(ids), TextSet(edit.deletes), TextMap(edit.inserts), edit.inserts != map[]);
    TextMapMutations(ids, edit.deletes, map[]);
    TextMapMutations(DeleteKeys(ids, edit.deletes), {}, edit.inserts);
  }

  lemma WaitComparesSnapshot(rows: Table, root: string, ids: ExternalIDs, snapshot: ExternalIDs, edit: Edit)
    requires edit.Change? && root in rows && EXTERNAL_IDS in rows[root] && rows[root][EXTERNAL_IDS] == MapOf(TextMap(ids))
    ensures WaitHolds(SwapOps(root, snapshot, edit)[0], rows) <==> ids == snapshot
  {
    var op := SwapOps(root, snapshot, edit)[0];
    var got := map c | c in op.columns && c in rows[root] :: rows[root][c];
    assert got == map[EXTERNAL_IDS := MapOf(TextMap(ids))];
    forall id | id in rows ensures Selects(op.where, id, rows[id]) <==> id == root {
      assert Holds(op.where[0], id, rows[id]) <==> id == root;
    }
    assert (set id | id in rows && Selects(op.where, id, rows[id]) :: map c | c in op.columns && c in rows[id] :: rows[id][c])
      == {got};
    assert got[EXTERNAL_IDS] == MapOf(TextMap(ids));
    TextMapInjective(ids, snapshot);
    if WaitHolds(op, rows) {
      assert got in op.rows;
      assert map[EXTERNAL_IDS := MapOf(TextMap(snapshot))][EXTERNAL_IDS] == got[EXTERNAL_IDS];
    }
  }

  lemma StepWait(op: Op, db: Database)
    requires op.Wait? && op.table in db && WaitHolds(op, db[op.table])
    ensures Ovsdb.Step(op, db) == Some(db)
  {
    assert Ovsdb.Step(op, db).Some?;
    assert Ovsdb.Step(op, db).value[op.table] == db[op.table];
    assert Ovsdb.Step(op, db).value == db;
  }

  /** A mutate that selects one row by its UUID. */
  lemma StepMutateRow(op: Op, db: Database, root: string, next: Row)
    requires op.Mutate? && |op.where| == 1 && op.where[0] == UuidIs(root)
    requires op.table in db && root in db[op.table] && MutateRow(db[op.table][root], op.mutations) == Some(next)
    ensures Ovsdb.Step(op, db) == Some(db[op.table := db[op.table][root := next]])
  {
    var rows := db[op.table];
    forall id | id in rows
      ensures RowStep(op, op.table, id, Present(rows[id])) == Some(Present(if id == root then next else rows[id]))
    {
      assert Selects(op.where, id, rows[id]) <==> Holds(op.where[0], id, rows[id]);
    }
    assert Ovsdb.Step(op, db).Some?;
    assert Ovsdb.Step(op, db).value[op.table] == rows[root := next];
    assert Ovsdb.Step(op, db).value == db[op.table := rows[root := next]];
  }

  /** The transaction commits exactly when external_ids is still what was read; it then
      applies the edit to the root row and leaves every other row and column alone. */
  lemma SwapIsAtomic(db: Database, root: string, ids: ExternalIDs, snapshot: ExternalIDs, edit: Edit)
    requires edit.Change? && ROOT_TABLE in db && root in db[ROOT_TABLE]
    requires EXTERNAL_IDS in db[ROOT_TABLE][root] && db[ROOT_TABLE][root][EXTERNAL_IDS] == MapOf(TextMap(ids))
    ensures Run(db, SwapOps(root, snapshot, edit)).Some? <==> ids == snapshot
    ensures Commit(db, SwapOps(root, snapshot, edit)) ==
      if ids != snapshot then db
      else db[ROOT_TABLE := db[ROOT_TABLE][root := db[ROOT_TABLE][root][EXTERNAL_IDS := MapOf(TextMap(Apply(ids, edit)))]]]
  {
    var ops := SwapOps(root, snapshot, edit);
    WaitComparesSnapshot(db[ROOT_TABLE], root, ids, snapshot, edit);
    RunPair(db, ops[0], ops[1]);
    if ids == snapshot {
      StepWait(ops[0], db);
      SwapRow(db[ROOT_TABLE][root], ids, edit);
      StepMutateRow(ops[1], db, root, db[ROOT_TABLE][root][EXTERNAL_IDS := MapOf(TextMap(Apply(ids, edit)))]);
    }
  }
}
