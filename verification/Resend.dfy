/** The resend decision of fluent.go: after a disconnect `transact` sends a transaction
    again without knowing whether the first copy was applied. */
module Resend {
  import opened Options
  import opened Ovsdb

  /** canRetryTransaction, for a request that is not a create. */
  predicate CanRetry(ops: seq<Op>) {
    ops != [] && forall i :: 0 <= i < |ops| ==> !ops[i].Insert?
  }

  /** canRetryTransaction. */
  method CanRetryTransaction(create: bool, ops: seq<Op>) returns (ok: bool)
    ensures ok <==> !create && CanRetry(ops)
  {
    if |ops| == 0 {
      return false;
    }
    if create {
      return false;
    }
    for i := 0 to |ops|
      invariant forall j :: 0 <= j < i ==> !ops[j].Insert?
    {
      if ops[i].Insert? {
        return false;
      }
    }
    return true;
  }

  /** Nothing at all is never resent; an operation is, unless it inserts; and a transaction
      is when both its parts are, however it is cut. */
  lemma RetryExactly(op: Op, a: seq<Op>, b: seq<Op>)
    ensures !CanRetry([])
    ensures CanRetry([op]) <==> op.Update? || op.Mutate? || op.Delete? || op.Wait? || op.Select?
    ensures a != [] && b != [] ==> (CanRetry(a + b) <==> CanRetry(a) && CanRetry(b))
  {
    var all := a + b;
    if CanRetry(all) {
      assert forall i :: 0 <= i < |a| ==> a[i] == all[i];
      assert forall i :: 0 <= i < |b| ==> b[i] == all[|a| + i];
    }
    assert !op.Insert? ==> CanRetry([op]);
    assert op.Insert? ==> [op][0].Insert?;
  }

  function ConditionColumns(where: seq<Condition>): set<string> {
    set i | 0 <= i < |where| && where[i].ColumnTest? :: where[i].column
  }

  function Reads(op: Op): set<string> {
    if op.Insert? then {} else ConditionColumns(op.where)
  }

  function Writes(op: Op): set<string> {
    match op
    case Update(_, _, row) => row.Keys
    case Mutate(_, _, ms) => set i | 0 <= i < |ms| :: ms[i].column
    case _ => {}
  }

  /** No operation writes a column by which the transaction selects rows of that table.
      Selection by UUID reads no column at all. */
  ghost predicate StableSelection(ops: seq<Op>) {
    forall i, j :: 0 <= i < |ops| && 0 <= j < |ops| && ops[i].table == ops[j].table ==>
      Reads(ops[i]) !! Writes(ops[j])
  }

  predicate DeletesByKey(op: Op) {
    op.Mutate? ==> forall i :: 0 <= i < |op.mutations| ==> !op.mutations[i].DeletePairs?
  }

  // ----- one column: a list of edits

  datatype Edit = Assign(v: Value) | Change(m: Mutation)

  function ApplyEdit(v: Value, e: Edit): Option<Value> {
    match e
    case Assign(w) => Some(w)
    case Change(m) => MutateValue(v, m)
  }

  function ApplyEdits(v: Value, es: seq<Edit>): Option<Value>
    decreases |es|
  {
    if es == [] then Some(v)
    else match ApplyEdit(v, es[0])
      case None => None
      case Some(w) => ApplyEdits(w, es[1..])
  }

  ghost predicate KeyEdits(es: seq<Edit>) {
    forall i :: 0 <= i < |es| && es[i].Change? ==> !es[i].m.DeletePairs?
  }

  /** What a value says about one key. */
  datatype Probe = Absent | Member | Entry(v: Atom)

  function ProbeOf(v: Value, k: Atom): Probe {
    match v
    case Scalar(a) => if a == k then Member else Absent
    case SetOf(s) => if k in s then Member else Absent
    case MapOf(es) => if k in es then Entry(es[k]) else Absent
  }

  function ProbeStep(e: Edit, k: Atom, p: Probe): Probe {
    match e
    case Assign(w) => ProbeOf(w, k)
    case Change(InsertSet(_, add)) => if k in add && p.Absent? then Member else p
    case Change(InsertMap(_, add)) => if k in add && p.Absent? then Entry(add[k]) else p
    case Change(DeleteElems(_, drop)) => if k in drop then Absent else p
    case Change(DeletePairs(_, drop)) => if p.Entry? && k in drop && drop[k] == p.v then Absent else p
  }

  function ProbeRun(es: seq<Edit>, k: Atom, p: Probe): Probe
    decreases |es|
  {
    if es == [] then p else ProbeRun(es[1..], k, ProbeStep(es[0], k, p))
  }

  predicate Assigns(es: seq<Edit>) {
    exists i :: 0 <= i < |es| && es[i].Assign?
  }

  lemma {:induction false} EditsProbe(v: Value, es: seq<Edit>, k: Atom)
    requires ApplyEdits(v, es).Some?
    ensures ProbeOf(ApplyEdits(v, es).value, k) == ProbeRun(es, k, ProbeOf(v, k))
    decreases |es|
  {
    if es != [] {
      EditsProbe(ApplyEdit(v, es[0]).value, es[1..], k);
    }
  }

  predicate SameKind(v: Value, w: Value) {
    v.Scalar? == w.Scalar? && v.SetOf? == w.SetOf? && v.MapOf? == w.MapOf?
  }

  lemma {:induction false} EditsKind(v: Value, w: Value, es: seq<Edit>)
    requires ApplyEdits(v, es).Some? && ApplyEdits(w, es).Some?
    requires Assigns(es) || SameKind(v, w)
    ensures SameKind(ApplyEdits(v, es).value, ApplyEdits(w, es).value)
    decreases |es|
  {
    if es != [] {
      var v', w' := ApplyEdit(v, es[0]).value, ApplyEdit(w, es[0]).value;
      if !es[0].Assign? && Assigns(es) {
        var i :| 0 <= i < |es| && es[i].Assign?;
        assert es[1..][i - 1].Assign?;
      }
      EditsKind(v', w', es[1..]);
    }
  }

  lemma {:induction false} NoAssignKeepsKind(v: Value, es: seq<Edit>)
    requires ApplyEdits(v, es).Some? && !Assigns(es)
    ensures SameKind(ApplyEdits(v, es).value, v)
    decreases |es|
  {
    if es != [] {
      assert !es[0].Assign?;
      assert forall i :: 0 <= i < |es[1..]| ==> es[1..][i] == es[i + 1];
      NoAssignKeepsKind(ApplyEdit(v, es[0]).value, es[1..]);
    }
  }

  /** An edit that settles a key regardless of what was there. */
  predicate Settles(e: Edit, k: Atom) {
    e.Assign? || (e.m.DeleteElems? && k in e.m.elems)
  }

  predicate Settled(es: seq<Edit>, k: Atom) {
    exists i :: 0 <= i < |es| && Settles(es[i], k)
  }

  lemma {:induction false} SettledForgets(es: seq<Edit>, k: Atom, p: Probe, q: Probe)
    requires Settled(es, k)
    ensures ProbeRun(es, k, p) == ProbeRun(es, k, q)
    decreases |es|
  {
    if !Settles(es[0], k) {
      var i :| 0 <= i < |es| && Settles(es[i], k);
      assert es[1..][i - 1] == es[i];
      SettledForgets(es[1..], k, ProbeStep(es[0], k, p), ProbeStep(es[0], k, q));
    }
  }

  /** The edit deletes the key together with this value. */
  predicate DeletesPair(e: Edit, k: Atom, v: Atom) {
    e.Change? && e.m.DeletePairs? && k in e.m.entries && e.m.entries[k] == v
  }

  /** The states of a key from which pair deletes may lead astray: absent, or one of the
      values that they name. */
  predicate Named(es: seq<Edit>, k: Atom, p: Probe) {
    p.Absent? || (p.Entry? && exists i :: 0 <= i < |es| && DeletesPair(es[i], k, p.v))
  }

  predicate PairKey(es: seq<Edit>, k: Atom) {
    exists i :: 0 <= i < |es| && es[i].Change? && es[i].m.DeletePairs? && k in es[i].m.entries
  }

  lemma {:induction false} UnsettledKeeps(es: seq<Edit>, k: Atom, p: Probe)
    requires !Settled(es, k) && !Named(es, k, p)
    ensures ProbeRun(es, k, p) == p
    decreases |es|
  {
    if es != [] {
      assert !Settles(es[0], k) && (p.Entry? ==> !DeletesPair(es[0], k, p.v));
      assert forall j :: 0 <= j < |es[1..]| ==> es[1..][j] == es[j + 1];
      UnsettledKeeps(es[1..], k, p);
    }
  }

  ghost predicate Repeatable(es: seq<Edit>, k: Atom, p: Probe) {
    ProbeRun(es, k, ProbeRun(es, k, p)) == ProbeRun(es, k, p)
  }

  /** The edits can be repeated under every key that a pair delete names, from absence and
      from each value named with it: finitely many cases to look at. */
  ghost predicate PairsRepeatable(es: seq<Edit>) {
    forall k, p :: PairKey(es, k) && Named(es, k, p) ==> Repeatable(es, k, p)
  }

  lemma KeyEditsRepeatable(es: seq<Edit>)
    requires KeyEdits(es)
    ensures PairsRepeatable(es)
  {}

  /** And then under every key and from every state. */
  lemma ProbeIdempotent(es: seq<Edit>, k: Atom, p: Probe)
    requires PairsRepeatable(es)
    ensures Repeatable(es, k, p)
  {
    var once := ProbeRun(es, k, p);
    if Settled(es, k) {
      SettledForgets(es, k, p, once);
    } else if !PairKey(es, k) && p.Absent? {
      if !once.Absent? {
        UnsettledKeeps(es, k, once);
      }
    } else if !Named(es, k, p) {
      UnsettledKeeps(es, k, p);
    } else {
      NamedKey(es, k, p);
    }
  }

  lemma NamedKey(es: seq<Edit>, k: Atom, p: Probe)
    requires Named(es, k, p)
    ensures p.Absent? || PairKey(es, k)
  {
    if p.Entry? {
      var i :| 0 <= i < |es| && DeletesPair(es[i], k, p.v);
    }
  }

  lemma SameProbes(v: Value, w: Value)
    requires SameKind(v, w) && forall k :: ProbeOf(v, k) == ProbeOf(w, k)
    ensures v == w
  {
    match v
    case Scalar(a) => assert ProbeOf(v, a) == ProbeOf(w, a);
    case SetOf(s) => assert forall k :: k in s <==> ProbeOf(v, k).Member?; assert forall k :: k in w.elems <==> ProbeOf(w, k).Member?; assert s == w.elems;
    case MapOf(es) => MapProbes(es, w.entries);
  }

  lemma MapProbes(m: map<Atom, Atom>, n: map<Atom, Atom>)
    requires forall k :: ProbeOf(MapOf(m), k) == ProbeOf(MapOf(n), k)
    ensures m == n
  {
    forall k ensures k in m <==> k in n {
      assert ProbeOf(MapOf(m), k) == ProbeOf(MapOf(n), k);
    }
    forall k | k in m ensures m[k] == n[k] {
      assert ProbeOf(MapOf(m), k) == ProbeOf(MapOf(n), k);
    }
  }

  /** Any mix of assignments, insertions and key deletions is idempotent, and so is one with
      pair deletions that are repeatable where they apply. */
  lemma EditsIdempotent(v: Value, es: seq<Edit>)
    requires KeyEdits(es) || PairsRepeatable(es)
    requires ApplyEdits(v, es).Some?
    requires ApplyEdits(ApplyEdits(v, es).value, es).Some?
    ensures ApplyEdits(ApplyEdits(v, es).value, es) == ApplyEdits(v, es)
  {
    var w := ApplyEdits(v, es).value;
    var x := ApplyEdits(w, es).value;
    if KeyEdits(es) {
      KeyEditsRepeatable(es);
    }
    forall k ensures ProbeOf(x, k) == ProbeOf(w, k) {
      EditsProbe(v, es, k);
      EditsProbe(w, es, k);
      ProbeIdempotent(es, k, ProbeOf(v, k));
    }
    if !Assigns(es) {
      NoAssignKeepsKind(v, es);
    }
    EditsKind(v, w, es);
    SameProbes(x, w);
  }

  // ----- one row

  function MutationEdits(ms: seq<Mutation>, c: string): seq<Edit> {
    if ms == [] then []
    else (if ms[0].column == c then [Change(ms[0])] else []) + MutationEdits(ms[1..], c)
  }

  function OpEdits(op: Op, c: string): seq<Edit> {
    match op
    case Update(_, _, row) => if c in row then [Assign(row[c])] else []
    case Mutate(_, _, ms) => MutationEdits(ms, c)
    case _ => []
  }

  /** The edits of column c by the operations that select the row `seen`. */
  function RowEdits(ops: seq<Op>, table: string, id: string, seen: Row, c: string): seq<Edit> {
    if ops == [] then []
    else (if ops[0].table == table && !ops[0].Insert? && Selects(ops[0].where, id, seen)
          then OpEdits(ops[0], c) else [])
         + RowEdits(ops[1..], table, id, seen, c)
  }

  predicate Kills(ops: seq<Op>, table: string, id: string, seen: Row) {
    exists i :: 0 <= i < |ops| && ops[i].Delete? && ops[i].table == table && Selects(ops[i].where, id, seen)
  }

  lemma {:induction false} EditsCompose(v: Value, a: seq<Edit>, b: seq<Edit>)
    ensures ApplyEdits(v, a + b) ==
      match ApplyEdits(v, a) case None => None case Some(w) => ApplyEdits(w, b)
    decreases |a|
  {
    if a == [] {
      assert a + b == b;
    } else {
      assert (a + b)[1..] == a[1..] + b;
      if ApplyEdit(v, a[0]).Some? {
        EditsCompose(ApplyEdit(v, a[0]).value, a[1..], b);
      }
    }
  }

  lemma {:induction false} MutateRowColumn(row: Row, ms: seq<Mutation>, c: string)
    requires MutateRow(row, ms).Some? && c in row
    ensures MutateRow(row, ms).value.Keys == row.Keys
    ensures ApplyEdits(row[c], MutationEdits(ms, c)) == Some(MutateRow(row, ms).value[c])
    decreases |ms|
  {
    if ms != [] {
      var next := row[ms[0].column := MutateValue(row[ms[0].column], ms[0]).value];
      assert next.Keys == row.Keys;
      MutateRowColumn(next, ms[1..], c);
      if ms[0].column == c {
        EditsCompose(row[c], [Change(ms[0])], MutationEdits(ms[1..], c));
        assert [Change(ms[0])][1..] == [];
      } else {
        assert [] + MutationEdits(ms[1..], c) == MutationEdits(ms[1..], c);
      }
    }
  }

  lemma {:induction false} MutateRowKeys(row: Row, ms: seq<Mutation>)
    requires MutateRow(row, ms).Some?
    ensures MutateRow(row, ms).value.Keys == row.Keys
    decreases |ms|
  {
    if ms != [] {
      var next := row[ms[0].column := MutateValue(row[ms[0].column], ms[0]).value];
      assert next.Keys == row.Keys;
      MutateRowKeys(next, ms[1..]);
    }
  }

  lemma {:induction false} NoMutationNoEdit(ms: seq<Mutation>, c: string)
    requires forall i :: 0 <= i < |ms| ==> ms[i].column != c
    ensures MutationEdits(ms, c) == []
  {
    if ms != [] {
      NoMutationNoEdit(ms[1..], c);
    }
  }

  /** Two versions of a row that look the same through these columns. */
  ghost predicate Agree(a: Row, b: Row, columns: set<string>) {
    forall c :: c in columns ==> (c in a <==> c in b) && (c in a ==> a[c] == b[c])
  }

  lemma AgreeSelects(where: seq<Condition>, id: string, a: Row, b: Row)
    requires Agree(a, b, ConditionColumns(where))
    ensures Selects(where, id, a) <==> Selects(where, id, b)
  {
    forall i | 0 <= i < |where| ensures Holds(where[i], id, a) <==> Holds(where[i], id, b) {
      if where[i].ColumnTest? {
        assert where[i].column in ConditionColumns(where);
      }
    }
  }

  /** One operation on one row, column by column. */
  lemma RowStepColumns(op: Op, table: string, id: string, row: Row)
    requires !op.Insert? && RowStep(op, table, id, Present(row)).Some?
    ensures var hit := op.table == table && Selects(op.where, id, row);
      var next := RowStep(op, table, id, Present(row)).value;
      && (next.Gone? <==> op.Delete? && hit)
      && (next.Present? ==> next.row.Keys == row.Keys)
      && (next.Present? ==> forall c :: c in row ==>
            ApplyEdits(row[c], if hit then OpEdits(op, c) else []) == Some(next.row[c]))
  {
    var next := RowStep(op, table, id, Present(row)).value;
    if op.table == table && Selects(op.where, id, row) {
      if op.Mutate? {
        MutateRowKeys(row, op.mutations);
        forall c | c in row ensures ApplyEdits(row[c], OpEdits(op, c)) == Some(next.row[c]) {
          MutateRowColumn(row, op.mutations, c);
        }
      } else if op.Update? {
        assert next.row.Keys == row.Keys;
        forall c | c in row ensures ApplyEdits(row[c], OpEdits(op, c)) == Some(next.row[c]) {
          if c in op.row {
            assert [Assign(op.row[c])][1..] == [];
          }
        }
      }
    }
  }

  /** Columns that the transaction does not write in this table. */
  ghost predicate Untouched(ops: seq<Op>, table: string, columns: set<string>) {
    forall i :: 0 <= i < |ops| && ops[i].table == table ==> columns !! Writes(ops[i])
  }

  lemma StepKeepsAgreement(op: Op, table: string, id: string, row: Row, seen: Row, columns: set<string>)
    requires !op.Insert? && RowStep(op, table, id, Present(row)).Some?
    requires RowStep(op, table, id, Present(row)).value.Present?
    requires Agree(row, seen, columns) && (op.table == table ==> columns !! Writes(op))
    ensures Agree(RowStep(op, table, id, Present(row)).value.row, seen, columns)
  {
    RowStepColumns(op, table, id, row);
    var next := RowStep(op, table, id, Present(row)).value.row;
    forall c | c in columns && c in row ensures next[c] == row[c] {
      if op.table == table && Selects(op.where, id, row) {
        assert c !in Writes(op);
        if op.Mutate? {
          NoMutationNoEdit(op.mutations, c);
        }
        assert OpEdits(op, c) == [];
      }
    }
  }

  /** All columns by which the transaction selects rows. */
  ghost predicate CoversReads(ops: seq<Op>, table: string, columns: set<string>) {
    forall i :: 0 <= i < |ops| && ops[i].table == table ==> Reads(ops[i]) <= columns
  }

  /** With stable selection, the whole transaction edits a row column by column, and the
      edits depend only on the columns it selects by. */
  lemma {:induction false} RowRunColumns(
      ops: seq<Op>, table: string, id: string, row: Row, seen: Row, columns: set<string>)
    requires forall i :: 0 <= i < |ops| ==> !ops[i].Insert?
    requires Untouched(ops, table, columns) && CoversReads(ops, table, columns) && Agree(row, seen, columns)
    requires RowRun(ops, table, id, Present(row)).Some?
    ensures var out := RowRun(ops, table, id, Present(row)).value;
      && (out.Gone? <==> Kills(ops, table, id, seen))
      && (out.Present? ==> out.row.Keys == row.Keys && Agree(out.row, seen, columns))
      && (out.Present? ==> forall c :: c in row ==>
            ApplyEdits(row[c], RowEdits(ops, table, id, seen, c)) == Some(out.row[c]))
    decreases |ops|
  {
    if ops != [] {
      var op, rest := ops[0], ops[1..];
      assert forall i :: 0 <= i < |rest| ==> rest[i] == ops[i + 1];
      RowStepColumns(op, table, id, row);
      assert op.table == table ==> (Selects(op.where, id, row) <==> Selects(op.where, id, seen)) by {
        if op.table == table {
          AgreeSelects(op.where, id, row, seen);
        }
      }
      var next := RowStep(op, table, id, Present(row)).value;
      if next.Gone? {
        GoneStaysGone(rest, table, id);
        assert ops[0].Delete?;
      } else {
        StepKeepsAgreement(op, table, id, row, seen, columns);
        RowRunColumns(rest, table, id, next.row, seen, columns);
        KillsTail(ops, table, id, seen);
        forall c | c in row && RowRun(ops, table, id, Present(row)).value.Present?
          ensures ApplyEdits(row[c], RowEdits(ops, table, id, seen, c)) ==
                  Some(RowRun(ops, table, id, Present(row)).value.row[c])
        {
          var hit := op.table == table && Selects(op.where, id, seen);
          EditsCompose(row[c], if hit then OpEdits(op, c) else [], RowEdits(rest, table, id, seen, c));
        }
      }
    }
  }

  lemma KillsTail(ops: seq<Op>, table: string, id: string, seen: Row)
    requires ops != []
    ensures Kills(ops, table, id, seen) <==>
      (ops[0].Delete? && ops[0].table == table && Selects(ops[0].where, id, seen)) || Kills(ops[1..], table, id, seen)
  {
    if Kills(ops, table, id, seen) {
      var i :| 0 <= i < |ops| && ops[i].Delete? && ops[i].table == table && Selects(ops[i].where, id, seen);
      if i > 0 {
        assert ops[1..][i - 1] == ops[i];
      }
    }
    if Kills(ops[1..], table, id, seen) {
      var i :| 0 <= i < |ops[1..]| && ops[1..][i].Delete? && ops[1..][i].table == table && Selects(ops[1..][i].where, id, seen);
      assert ops[i + 1] == ops[1..][i];
    }
  }

  lemma {:induction false} MutationEditsByKey(ms: seq<Mutation>, c: string)
    requires forall i :: 0 <= i < |ms| ==> !ms[i].DeletePairs?
    ensures KeyEdits(MutationEdits(ms, c))
  {
    if ms != [] {
      MutationEditsByKey(ms[1..], c);
    }
  }

  lemma {:induction false} RowEditsByKey(ops: seq<Op>, table: string, id: string, seen: Row, c: string)
    requires forall i :: 0 <= i < |ops| ==> DeletesByKey(ops[i])
    ensures KeyEdits(RowEdits(ops, table, id, seen, c))
  {
    if ops != [] {
      RowEditsByKey(ops[1..], table, id, seen, c);
      if ops[0].Mutate? {
        MutationEditsByKey(ops[0].mutations, c);
      }
    }
  }

  function AllReads(ops: seq<Op>, table: string): set<string> {
    if ops == [] then {}
    else (if ops[0].table == table then Reads(ops[0]) else {}) + AllReads(ops[1..], table)
  }

  lemma {:induction false} AllReadsCovers(ops: seq<Op>, table: string)
    ensures CoversReads(ops, table, AllReads(ops, table))
    ensures forall c :: c in AllReads(ops, table) ==>
      exists i :: 0 <= i < |ops| && ops[i].table == table && c in Reads(ops[i])
  {
    if ops != [] {
      AllReadsCovers(ops[1..], table);
      forall c | c in AllReads(ops, table)
        ensures exists i :: 0 <= i < |ops| && ops[i].table == table && c in Reads(ops[i])
      {
        if c in AllReads(ops[1..], table) {
          var i :| 0 <= i < |ops[1..]| && ops[1..][i].table == table && c in Reads(ops[1..][i]);
          assert ops[i + 1] == ops[1..][i];
        } else {
          assert c in Reads(ops[0]);
        }
      }
      forall i | 0 <= i < |ops| && ops[i].table == table ensures Reads(ops[i]) <= AllReads(ops, table) {
        if i > 0 {
          assert ops[i] == ops[1..][i - 1];
        }
      }
    }
  }

  /** A row that the transaction leaves in place is a fixed point of it. */
  lemma RowIdempotent(ops: seq<Op>, table: string, id: string, row: Row)
    requires forall i :: 0 <= i < |ops| ==> !ops[i].Insert? && DeletesByKey(ops[i])
    requires StableSelection(ops)
    requires RowRun(ops, table, id, Present(row)).Some? && RowRun(ops, table, id, Present(row)).value.Present?
    requires RowRun(ops, table, id, RowRun(ops, table, id, Present(row)).value).Some?
    ensures var once := RowRun(ops, table, id, Present(row)).value;
      RowRun(ops, table, id, once) == Some(once)
  {
    var columns := AllReads(ops, table);
    AllReadsCovers(ops, table);
    assert Untouched(ops, table, columns) by {
      forall j, c | 0 <= j < |ops| && ops[j].table == table && c in columns ensures c !in Writes(ops[j]) {
        var i :| 0 <= i < |ops| && ops[i].table == table && c in Reads(ops[i]);
        assert Reads(ops[i]) !! Writes(ops[j]);
      }
    }
    var once := RowRun(ops, table, id, Present(row)).value.row;
    RowRunColumns(ops, table, id, row, row, columns);
    RowRunColumns(ops, table, id, once, row, columns);
    var twice := RowRun(ops, table, id, Present(once)).value.row;
    forall c | c in once ensures twice[c] == once[c] {
      RowEditsByKey(ops, table, id, row, c);
      EditsIdempotent(row[c], RowEdits(ops, table, id, row, c));
    }
    assert twice == once;
  }

  // ----- the whole database

  /** Resending is harmless: whatever the number and order of updates, mutations,
      deletes, waits and selects, applying the transaction twice leaves the same database
      as applying it once, aborts included. */
  lemma ResendIsHarmless(db: Database, ops: seq<Op>)
    requires CanRetry(ops) && StableSelection(ops)
    requires forall i :: 0 <= i < |ops| ==> DeletesByKey(ops[i])
    ensures Commit(Commit(db, ops), ops) == Commit(db, ops)
  {
    var once := Commit(db, ops);
    if Run(db, ops).Some? && Run(once, ops).Some? {
      var twice := Run(once, ops).value;
      if db.Keys != {} {
        var t0 :| t0 in db;
        RunRows(db, ops, t0, "");
        RunRows(once, ops, t0, "");
      }
      forall t | t in once ensures twice[t] == once[t] {
        forall id ensures id in twice[t] <==> id in once[t]
                  ensures id in once[t] ==> twice[t][id] == once[t][id] {
          RunRows(db, ops, t, id);
          RunRows(once, ops, t, id);
          if id in once[t] {
            RowIdempotent(ops, t, id, db[t][id]);
          }
        }
      }
      assert twice == once;
    }
  }

  /** Selection by UUID alone is stable. */
  lemma UuidSelectionIsStable(ops: seq<Op>)
    requires forall i :: 0 <= i < |ops| && !ops[i].Insert? ==>
      forall k :: 0 <= k < |ops[i].where| ==> ops[i].where[k].UuidIs?
    ensures StableSelection(ops)
  {
    forall i | 0 <= i < |ops| ensures Reads(ops[i]) == {} {}
  }

  // ----- where it stops being harmless

  function IsNumber(n: int): Value -> bool {
    (v: Value) => v == Scalar(Number(n))
  }

  function OneRow(v: Value): Database {
    map["T" := map["r" := map["p" := v]]]
  }

  /** A database with a single row and column. */
  lemma StepOneRow(op: Op, v: Value, w: Value)
    requires (op.Update? || op.Mutate?) && op.table == "T"
    requires RowStep(op, "T", "r", Present(map["p" := v])) == Some(Present(map["p" := w]))
    ensures Step(op, OneRow(v)) == Some(OneRow(w))
  {
    var db := OneRow(v);
    assert db.Keys == {"T"} && db["T"] == map["r" := map["p" := v]];
    assert Step(op, db).Some?;
    assert Step(op, db).value["T"] == map["r" := map["p" := w]];
    assert Step(op, db).value == OneRow(w);
  }

  lemma UpdateOneRow(from: int, to: int, n: int)
    ensures var op := Update("T", [ColumnTest("p", IsNumber(from))], map["p" := Scalar(Number(to))]);
      Step(op, OneRow(Scalar(Number(n)))) == Some(OneRow(Scalar(Number(if n == from then to else n))))
  {
    var op := Update("T", [ColumnTest("p", IsNumber(from))], map["p" := Scalar(Number(to))]);
    var row, next := map["p" := Scalar(Number(n))], map["p" := Scalar(Number(to))];
    assert Holds(op.where[0], "r", row) <==> n == from;
    assert row + next == next;
    StepOneRow(op, Scalar(Number(n)), Scalar(Number(if n == from then to else n)));
  }

  /** canRetryTransaction does not look at conditions: two updates of which one writes what
      the other selects by may be resent and then move rows on a second time.  This is about
      canRetryTransaction alone; the SDK's own callers of transact send no such pair, since
      the operations on one table share their conditions or select by UUID. */
  lemma UnstableSelectionIsNotHarmless()
    ensures exists db, ops ::
      && CanRetry(ops) && (forall i :: 0 <= i < |ops| ==> DeletesByKey(ops[i]))
      && Commit(Commit(db, ops), ops) != Commit(db, ops)
  {
    var a := Update("T", [ColumnTest("p", IsNumber(1))], map["p" := Scalar(Number(2))]);
    var b := Update("T", [ColumnTest("p", IsNumber(0))], map["p" := Scalar(Number(1))]);
    var db := OneRow(Scalar(Number(0)));
    UpdateOneRow(1, 2, 0);
    UpdateOneRow(0, 1, 0);
    UpdateOneRow(1, 2, 1);
    UpdateOneRow(0, 1, 2);
    RunPair(db, a, b);
    RunPair(OneRow(Scalar(Number(1))), a, b);
    assert Commit(db, [a, b]) == OneRow(Scalar(Number(1)));
    assert Commit(OneRow(Scalar(Number(1))), [a, b])["T"]["r"]["p"] == Scalar(Number(2));
  }
}
