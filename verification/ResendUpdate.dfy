/** When the transaction of executeUpdate (fluent.go) can be resent. */
module ResendUpdate {
  import opened Options
  import opened Ovsdb
  import opened Resend

  /** executeUpdate: one update without the identity columns, one mutate, both with all the
      conditions of the reference. */
  function UpdateOps(table: string, identityColumn: string, where: seq<Condition>, row: Row, ms: seq<Mutation>): seq<Op> {
    var rest := row - {"_uuid", identityColumn};
    (if rest == map[] then [] else [Update(table, where, rest)])
    + (if ms == [] then [] else [Mutate(table, where, ms)])
  }

  /** An update that has anything to do is resent after a disconnect. */
  lemma UpdateIsRetried(table: string, identityColumn: string, where: seq<Condition>, row: Row, ms: seq<Mutation>)
    ensures CanRetry(UpdateOps(table, identityColumn, where, row, ms)) <==>
      ms != [] || exists c :: c in row && c != "_uuid" && c != identityColumn
  {
    var rest := row - {"_uuid", identityColumn};
    forall c ensures c in row && c != "_uuid" && c != identityColumn <==> c in rest {}
    if rest != map[] {
      var c :| c in rest;
    }
  }

  /** What the transaction does to one row of the table. */
  function Updated(where: seq<Condition>, rest: Row, ms: seq<Mutation>, id: string, row: Row): Option<Row> {
    if !Selects(where, id, row) then Some(row)
    else if !(rest.Keys <= row.Keys) then None
    else if !Selects(where, id, row + rest) then Some(row + rest)
    else MutateRow(row + rest, ms)
  }

  function Outcome(row: Option<Row>): Option<RowState> {
    match row case None => None case Some(next) => Some(Present(next))
  }

  lemma RowRunPair(a: Op, b: Op, t: string, id: string, s: RowState)
    ensures RowRun([a, b], t, id, s) ==
      match RowStep(a, t, id, s) case None => None case Some(next) => RowStep(b, t, id, next)
  {
    assert [a, b][1..] == [b] && [b][1..] == [];
    if RowStep(a, t, id, s).Some? {
      var next := RowStep(a, t, id, s).value;
      assert RowRun([b], t, id, next) == match RowStep(b, t, id, next) case None => None case Some(last) => RowRun([], t, id, last);
    }
  }

  lemma RowRunUpdated(table: string, identityColumn: string, where: seq<Condition>, row: Row, ms: seq<Mutation>, t: string, id: string, r: Row)
    ensures RowRun(UpdateOps(table, identityColumn, where, row, ms), t, id, Present(r)) ==
      if t != table then Some(Present(r)) else Outcome(Updated(where, row - {"_uuid", identityColumn}, ms, id, r))
  {
    var rest := row - {"_uuid", identityColumn};
    var ops := UpdateOps(table, identityColumn, where, row, ms);
    if rest == map[] {
      assert r + rest == r;
      if ms != [] {
        assert ops == [Mutate(table, where, ms)] && ops[1..] == [];
      }
    } else if ms == [] {
      assert ops == [Update(table, where, rest)] && ops[1..] == [];
    } else {
      assert ops == [Update(table, where, rest), Mutate(table, where, ms)];
      RowRunPair(Update(table, where, rest), Mutate(table, where, ms), t, id, Present(r));
    }
  }

  // ----- the edits of one column

  function UpdateEdits(rest: Row, ms: seq<Mutation>, c: string): seq<Edit> {
    (if c in rest then [Assign(rest[c])] else []) + MutationEdits(ms, c)
  }

  lemma UpdateColumn(rest: Row, ms: seq<Mutation>, row: Row, c: string)
    requires rest.Keys <= row.Keys && MutateRow(row + rest, ms).Some? && c in row
    ensures MutateRow(row + rest, ms).value.Keys == row.Keys
    ensures ApplyEdits(row[c], UpdateEdits(rest, ms, c)) == Some(MutateRow(row + rest, ms).value[c])
  {
    MutateRowColumn(row + rest, ms, c);
    if c in rest {
      EditsCompose(row[c], [Assign(rest[c])], MutationEdits(ms, c));
      assert [Assign(rest[c])][1..] == [];
    } else {
      assert [] + MutationEdits(ms, c) == MutationEdits(ms, c);
    }
  }

  lemma {:induction false} KindDecides(v: Value, w: Value, es: seq<Edit>)
    requires SameKind(v, w)
    ensures ApplyEdits(v, es).Some? <==> ApplyEdits(w, es).Some?
    decreases |es|
  {
    if es != [] && ApplyEdit(v, es[0]).Some? {
      KindDecides(ApplyEdit(v, es[0]).value, ApplyEdit(w, es[0]).value, es[1..]);
    }
  }

  /** A value of the kind that the edits apply to, if there is one. */
  function Sample(es: seq<Edit>): Value {
    if ApplyEdits(MapOf(map[]), es).Some? then MapOf(map[])
    else if ApplyEdits(SetOf({}), es).Some? then SetOf({})
    else Scalar(Number(0))
  }

  predicate Applies(es: seq<Edit>) {
    ApplyEdits(Sample(es), es).Some?
  }

  lemma AppliesToSome(v: Value, es: seq<Edit>)
    requires ApplyEdits(v, es).Some?
    ensures Applies(es)
  {
    match v
    case MapOf(_) => KindDecides(v, MapOf(map[]), es);
    case SetOf(_) => KindDecides(v, SetOf({}), es);
    case Scalar(_) => KindDecides(v, Scalar(Number(0)), es);
  }

  function MutatedColumns(ms: seq<Mutation>): set<string> {
    set i | 0 <= i < |ms| :: ms[i].column
  }

  function Written(rest: Row, ms: seq<Mutation>): set<string> {
    rest.Keys + MutatedColumns(ms)
  }

  /** The update either fails on every row it selects, because some column's edits apply to
      no value, or can be repeated in every column. */
  ghost predicate Resendable(rest: Row, ms: seq<Mutation>) {
    || (exists c :: c in Written(rest, ms) && !Applies(UpdateEdits(rest, ms, c)))
    || (forall c :: c in Written(rest, ms) ==> PairsRepeatable(UpdateEdits(rest, ms, c)))
  }

  lemma {:induction false} NoPairsRepeatable(ms: seq<Mutation>, rest: Row, c: string)
    requires forall i :: 0 <= i < |ms| ==> !ms[i].DeletePairs?
    ensures PairsRepeatable(UpdateEdits(rest, ms, c))
  {
    MutationEditsByKey(ms, c);
    KeyEditsRepeatable(UpdateEdits(rest, ms, c));
  }

  lemma UnwrittenKeeps(rest: Row, ms: seq<Mutation>, c: string)
    requires c !in Written(rest, ms)
    ensures UpdateEdits(rest, ms, c) == []
  {
    forall i | 0 <= i < |ms| ensures ms[i].column != c {
      assert ms[i].column in MutatedColumns(ms);
    }
    NoMutationNoEdit(ms, c);
  }

  // ----- one row twice

  /** Both operations share their conditions, each about one column: a row that is selected
      again after the update alone has in every column a value that has passed before. */
  lemma StillSelected(where: seq<Condition>, id: string, a: Row, out: Row, rest: Row)
    requires Selects(where, id, a + rest) && Selects(where, id, out) && out.Keys == a.Keys && rest.Keys <= a.Keys
    ensures Selects(where, id, out + rest)
  {
    forall i | 0 <= i < |where| ensures Holds(where[i], id, out + rest) {
      assert Holds(where[i], id, a + rest) && Holds(where[i], id, out);
    }
  }

  lemma {:induction false} MutatedIsWritten(row: Row, ms: seq<Mutation>)
    requires MutateRow(row, ms).Some?
    ensures MutatedColumns(ms) <= row.Keys
    decreases |ms|
  {
    if ms != [] {
      MutatedIsWritten(row[ms[0].column := MutateValue(row[ms[0].column], ms[0]).value], ms[1..]);
      forall c | c in MutatedColumns(ms) ensures c in row {
        var i :| 0 <= i < |ms| && ms[i].column == c;
        if i > 0 {
          assert ms[1..][i - 1] == ms[i] && c in MutatedColumns(ms[1..]);
        }
      }
    }
  }

  lemma MutatedTwice(rest: Row, ms: seq<Mutation>, row: Row)
    requires Resendable(rest, ms) && rest.Keys <= row.Keys && MutateRow(row + rest, ms).Some?
    requires var out := MutateRow(row + rest, ms).value; rest.Keys <= out.Keys && MutateRow(out + rest, ms).Some?
    ensures var out := MutateRow(row + rest, ms).value; MutateRow(out + rest, ms) == Some(out)
  {
    var out := MutateRow(row + rest, ms).value;
    MutateRowKeys(row + rest, ms);
    MutateRowKeys(out + rest, ms);
    MutatedIsWritten(row + rest, ms);
    var twice := MutateRow(out + rest, ms).value;
    forall c | c in Written(rest, ms) ensures Applies(UpdateEdits(rest, ms, c)) {
      UpdateColumn(rest, ms, row, c);
      AppliesToSome(row[c], UpdateEdits(rest, ms, c));
    }
    forall c | c in out ensures twice[c] == out[c] {
      UpdateColumn(rest, ms, row, c);
      UpdateColumn(rest, ms, out, c);
      if c in Written(rest, ms) {
        EditsIdempotent(row[c], UpdateEdits(rest, ms, c));
      } else {
        UnwrittenKeeps(rest, ms, c);
      }
    }
    assert twice == out;
  }

  lemma UpdatedTwice(where: seq<Condition>, rest: Row, ms: seq<Mutation>, id: string, row: Row)
    requires Resendable(rest, ms)
    requires Updated(where, rest, ms, id, row).Some? && Updated(where, rest, ms, id, Updated(where, rest, ms, id, row).value).Some?
    ensures var once := Updated(where, rest, ms, id, row).value; Updated(where, rest, ms, id, once) == Some(once)
  {
    var once := Updated(where, rest, ms, id, row).value;
    if Selects(where, id, row) && Selects(where, id, row + rest) && Selects(where, id, once) {
      MutateRowKeys(row + rest, ms);
      StillSelected(where, id, row, once, rest);
      MutatedTwice(rest, ms, row);
    }
  }

  // ----- the whole database

  ghost predicate HarmlessOn(db: Database, ops: seq<Op>) {
    Commit(Commit(db, ops), ops) == Commit(db, ops)
  }

  /** A second time changes the row no more, or fails. */
  ghost predicate RowSettles(ops: seq<Op>, t: string, id: string, row: Row) {
    match RowRun(ops, t, id, Present(row))
    case Some(Present(next)) =>
      RowRun(ops, t, id, Present(next)).Some? ==> RowRun(ops, t, id, Present(next)) == Some(Present(next))
    case _ => true
  }

  lemma RowTwice(db: Database, ops: seq<Op>, t: string, id: string)
    requires (forall i :: 0 <= i < |ops| ==> !ops[i].Insert?) && t in db
    requires Run(db, ops).Some? && Run(Run(db, ops).value, ops).Some?
    requires id in db[t] ==> RowSettles(ops, t, id, db[t][id])
    ensures var once, twice := Run(db, ops).value, Run(Run(db, ops).value, ops).value;
      && t in once && t in twice && (id in twice[t] <==> id in once[t])
      && (id in once[t] ==> twice[t][id] == once[t][id])
  {
    RunRows(db, ops, t, id);
    RunRows(Run(db, ops).value, ops, t, id);
  }

  /** When every row settles, so does the database. */
  lemma SettledRows(db: Database, ops: seq<Op>)
    requires forall i :: 0 <= i < |ops| ==> !ops[i].Insert?
    requires forall t, id :: t in db && id in db[t] ==> RowSettles(ops, t, id, db[t][id])
    ensures HarmlessOn(db, ops)
  {
    var once := Commit(db, ops);
    if Run(db, ops).Some? && Run(once, ops).Some? {
      var twice := Run(once, ops).value;
      SameTables(db, ops);
      SameTables(once, ops);
      forall t | t in once ensures twice[t] == once[t] {
        forall id ensures id in twice[t] <==> id in once[t]
                  ensures id in once[t] ==> twice[t][id] == once[t][id] {
          RowTwice(db, ops, t, id);
        }
      }
      assert twice == once;
    }
  }

  lemma UpdateSettles(
      table: string, identityColumn: string, where: seq<Condition>, row: Row, ms: seq<Mutation>, t: string, id: string, r: Row)
    requires Resendable(row - {"_uuid", identityColumn}, ms)
    ensures RowSettles(UpdateOps(table, identityColumn, where, row, ms), t, id, r)
  {
    var ops, rest := UpdateOps(table, identityColumn, where, row, ms), row - {"_uuid", identityColumn};
    RowRunUpdated(table, identityColumn, where, row, ms, t, id, r);
    if t == table && Updated(where, rest, ms, id, r).Some? {
      var next := Updated(where, rest, ms, id, r).value;
      RowRunUpdated(table, identityColumn, where, row, ms, t, id, next);
      if Updated(where, rest, ms, id, next).Some? {
        UpdatedTwice(where, rest, ms, id, r);
      }
    }
  }

  /** Whatever the conditions, also on columns that it writes, an update that is resendable
      column by column is harmless on every database. */
  lemma ResendableIsHarmless(
      db: Database, table: string, identityColumn: string, where: seq<Condition>, row: Row, ms: seq<Mutation>)
    requires Resendable(row - {"_uuid", identityColumn}, ms)
    ensures HarmlessOn(db, UpdateOps(table, identityColumn, where, row, ms))
  {
    var ops := UpdateOps(table, identityColumn, where, row, ms);
    forall t, id | t in db && id in db[t] ensures RowSettles(ops, t, id, db[t][id]) {
      UpdateSettles(table, identityColumn, where, row, ms, t, id, db[t][id]);
    }
    SettledRows(db, ops);
  }

  lemma SameTables(db: Database, ops: seq<Op>)
    requires Run(db, ops).Some? && forall i :: 0 <= i < |ops| ==> !ops[i].Insert?
    ensures Run(db, ops).value.Keys == db.Keys
  {
    if db.Keys != {} {
      var t :| t in db;
      RunRows(db, ops, t, "");
    }
  }

  /** In particular every executeUpdate without pair deletes. */
  lemma UpdateResendIsHarmless(
      db: Database, table: string, identityColumn: string, where: seq<Condition>, row: Row, ms: seq<Mutation>)
    requires forall i :: 0 <= i < |ms| ==> !ms[i].DeletePairs?
    ensures var ops := UpdateOps(table, identityColumn, where, row, ms);
      Commit(Commit(db, ops), ops) == Commit(db, ops)
  {
    var rest := row - {"_uuid", identityColumn};
    forall c | c in Written(rest, ms) ensures PairsRepeatable(UpdateEdits(rest, ms, c)) {
      NoPairsRepeatable(ms, rest, c);
    }
    ResendableIsHarmless(db, table, identityColumn, where, row, ms);
  }

  // ----- and when it cannot

  /** Without assignments a column that holds a map goes on holding one. */
  lemma {:induction false} MapStaysMap(m: map<Atom, Atom>, es: seq<Edit>)
    requires !Assigns(es) && ApplyEdits(MapOf(m), es).Some?
    ensures ApplyEdits(MapOf(m), es).value.MapOf?
  {
    NoAssignKeepsKind(MapOf(m), es);
  }

  lemma {:induction false} PairsNeedMap(v: Value, es: seq<Edit>, i: nat)
    requires !Assigns(es) && ApplyEdits(v, es).Some? && i < |es| && es[i].Change? && es[i].m.DeletePairs?
    ensures v.MapOf?
    decreases |es|
  {
    assert !es[0].Assign?;
    if i > 0 {
      assert forall j :: 0 <= j < |es[1..]| ==> es[1..][j] == es[j + 1];
      PairsNeedMap(ApplyEdit(v, es[0]).value, es[1..], i - 1);
    }
  }

  /** A key and a state that cannot be repeated, as a value. */
  function Holding(k: Atom, p: Probe): Value {
    MapOf(if p.Entry? then map[k := p.v] else map[])
  }

  lemma BadValue(es: seq<Edit>, k: Atom, p: Probe)
    requires Applies(es) && PairKey(es, k) && Named(es, k, p) && !Repeatable(es, k, p)
    ensures !Assigns(es)
    ensures var v := Holding(k, p);
      && ApplyEdits(v, es).Some? && ApplyEdits(ApplyEdits(v, es).value, es).Some?
      && ApplyEdits(ApplyEdits(v, es).value, es) != ApplyEdits(v, es)
  {
    if Settled(es, k) {
      SettledForgets(es, k, p, ProbeRun(es, k, p));
    }
    NotSettledNoAssign(es, k);
    var i :| 0 <= i < |es| && es[i].Change? && es[i].m.DeletePairs? && k in es[i].m.entries;
    PairsNeedMap(Sample(es), es, i);
    var v := Holding(k, p);
    KindDecides(Sample(es), v, es);
    var once := ApplyEdits(v, es).value;
    MapStaysMap(v.entries, es);
    KindDecides(v, once, es);
    EditsProbe(v, es, k);
    EditsProbe(once, es, k);
    assert ProbeOf(v, k) == p;
  }

  lemma NotSettledNoAssign(es: seq<Edit>, k: Atom)
    requires !Settled(es, k)
    ensures !Assigns(es)
  {}

  lemma {:induction false} MutationsAssignNothing(ms: seq<Mutation>, c: string)
    ensures !Assigns(MutationEdits(ms, c))
  {
    if ms != [] {
      MutationsAssignNothing(ms[1..], c);
      var tail := MutationEdits(ms[1..], c);
      var head: seq<Edit> := if ms[0].column == c then [Change(ms[0])] else [];
      forall i | 0 <= i < |head + tail| ensures !(head + tail)[i].Assign? {
        assert i < |head| || (head + tail)[i] == tail[i - |head|];
      }
    }
  }

  /** Edits that apply once apply again. */
  lemma AppliesAgain(rest: Row, ms: seq<Mutation>, c: string, v: Value)
    requires ApplyEdits(v, UpdateEdits(rest, ms, c)).Some?
    ensures ApplyEdits(ApplyEdits(v, UpdateEdits(rest, ms, c)).value, UpdateEdits(rest, ms, c)).Some?
  {
    var es := UpdateEdits(rest, ms, c);
    var w := ApplyEdits(v, es).value;
    if c in rest {
      assert ApplyEdit(v, es[0]) == ApplyEdit(w, es[0]);
    } else {
      assert es == MutationEdits(ms, c);
      MutationsAssignNothing(ms, c);
      NoAssignKeepsKind(v, es);
      KindDecides(v, w, es);
    }
  }

  lemma EditsTail(v: Value, ms: seq<Mutation>, c: string)
    requires ms != [] && ApplyEdits(v, MutationEdits(ms, c)).Some?
    ensures ms[0].column == c ==>
      MutateValue(v, ms[0]).Some? && ApplyEdits(MutateValue(v, ms[0]).value, MutationEdits(ms[1..], c)).Some?
    ensures ms[0].column != c ==> ApplyEdits(v, MutationEdits(ms[1..], c)).Some?
  {
    var es, tail := MutationEdits(ms, c), MutationEdits(ms[1..], c);
    if ms[0].column == c {
      assert es[0] == Change(ms[0]) && es[1..] == tail;
    } else {
      assert es == tail;
    }
  }

  lemma {:induction false} MutateRowApplies(row: Row, ms: seq<Mutation>)
    requires MutatedColumns(ms) <= row.Keys
    requires forall c :: c in row ==> ApplyEdits(row[c], MutationEdits(ms, c)).Some?
    ensures MutateRow(row, ms).Some?
    decreases |ms|
  {
    if ms != [] {
      var d := ms[0].column;
      assert d in MutatedColumns(ms);
      EditsTail(row[d], ms, d);
      var next := row[d := MutateValue(row[d], ms[0]).value];
      forall c | c in next ensures ApplyEdits(next[c], MutationEdits(ms[1..], c)).Some? {
        EditsTail(row[c], ms, c);
      }
      forall c | c in MutatedColumns(ms[1..]) ensures c in next {
        var i :| 0 <= i < |ms[1..]| && ms[1..][i].column == c;
        assert ms[i + 1].column == c && c in MutatedColumns(ms);
      }
      MutateRowApplies(next, ms[1..]);
    }
  }

  /** A row whose written columns hold values that the edits apply to, with one chosen. */
  function WitnessRow(seed: Row, rest: Row, ms: seq<Mutation>, bad: string, v: Value): Row {
    seed + map c | c in Written(rest, ms) :: if c == bad then v else Sample(UpdateEdits(rest, ms, c))
  }

  lemma RowApplies(rest: Row, ms: seq<Mutation>, row: Row)
    requires Written(rest, ms) <= row.Keys
    requires forall c :: c in Written(rest, ms) ==> ApplyEdits(row[c], UpdateEdits(rest, ms, c)).Some?
    ensures MutateRow(row + rest, ms).Some?
    ensures var out := MutateRow(row + rest, ms).value;
      out.Keys == row.Keys && forall c :: c in row ==> ApplyEdits(row[c], UpdateEdits(rest, ms, c)) == Some(out[c])
  {
    forall c | c in row + rest ensures ApplyEdits((row + rest)[c], MutationEdits(ms, c)).Some? {
      if c in Written(rest, ms) {
        if c in rest {
          EditsCompose(row[c], [Assign(rest[c])], MutationEdits(ms, c));
          assert [Assign(rest[c])][1..] == [];
        } else {
          assert [] + MutationEdits(ms, c) == MutationEdits(ms, c);
        }
      } else {
        UnwrittenKeeps(rest, ms, c);
        assert [] + MutationEdits(ms, c) == MutationEdits(ms, c);
      }
    }
    MutateRowApplies(row + rest, ms);
    MutateRowKeys(row + rest, ms);
    forall c | c in row ensures ApplyEdits(row[c], UpdateEdits(rest, ms, c)) == Some(MutateRow(row + rest, ms).value[c]) {
      UpdateColumn(rest, ms, row, c);
    }
  }

  ghost predicate ReadsOnlyOthers(where: seq<Condition>, rest: Row, ms: seq<Mutation>) {
    ConditionColumns(where) !! Written(rest, ms)
  }

  lemma SelectedAs(where: seq<Condition>, rest: Row, ms: seq<Mutation>, id: string, a: Row, b: Row)
    requires ReadsOnlyOthers(where, rest, ms) && Selects(where, id, a)
    requires forall c :: c !in Written(rest, ms) ==> (c in a <==> c in b) && (c in a ==> a[c] == b[c])
    ensures Selects(where, id, b) && Selects(where, id, b + rest)
  {
    AgreeSelects(where, id, a, b);
    AgreeSelects(where, id, a, b + rest);
  }

  /** The row is selected, fits the edits and looks like the seed outside what is written. */
  ghost predicate Fits(rest: Row, ms: seq<Mutation>, seed: Row, row: Row) {
    && Written(rest, ms) <= row.Keys
    && (forall c :: c in Written(rest, ms) ==> ApplyEdits(row[c], UpdateEdits(rest, ms, c)).Some?)
    && (forall c :: c !in Written(rest, ms) ==> (c in seed <==> c in row) && (c in seed ==> seed[c] == row[c]))
  }

  lemma FitsUpdated(where: seq<Condition>, rest: Row, ms: seq<Mutation>, id: string, seed: Row, row: Row)
    requires ReadsOnlyOthers(where, rest, ms) && Selects(where, id, seed) && Fits(rest, ms, seed, row)
    ensures Updated(where, rest, ms, id, row).Some?
    ensures var out := Updated(where, rest, ms, id, row).value;
      Fits(rest, ms, seed, out) && forall c :: c in Written(rest, ms) ==> ApplyEdits(row[c], UpdateEdits(rest, ms, c)) == Some(out[c])
  {
    SelectedAs(where, rest, ms, id, seed, row);
    RowApplies(rest, ms, row);
    var out := MutateRow(row + rest, ms).value;
    forall c | c !in Written(rest, ms) && c in row ensures out[c] == row[c] {
      UnwrittenKeeps(rest, ms, c);
    }
    forall c | c in Written(rest, ms) ensures ApplyEdits(out[c], UpdateEdits(rest, ms, c)).Some? {
      AppliesAgain(rest, ms, c, row[c]);
    }
  }

  /** A row that the update changes a second time. */
  lemma RowNotHarmless(where: seq<Condition>, rest: Row, ms: seq<Mutation>, id: string, seed: Row, bad: string, v: Value)
    requires ReadsOnlyOthers(where, rest, ms) && Selects(where, id, seed) && bad in Written(rest, ms)
    requires forall c :: c in Written(rest, ms) ==> Applies(UpdateEdits(rest, ms, c))
    requires var es := UpdateEdits(rest, ms, bad);
      ApplyEdits(v, es).Some? && ApplyEdits(ApplyEdits(v, es).value, es) != ApplyEdits(v, es)
    ensures var row := WitnessRow(seed, rest, ms, bad, v);
      && Updated(where, rest, ms, id, row).Some?
      && Updated(where, rest, ms, id, Updated(where, rest, ms, id, row).value).Some?
      && Updated(where, rest, ms, id, Updated(where, rest, ms, id, row).value) != Updated(where, rest, ms, id, row)
  {
    var row := WitnessRow(seed, rest, ms, bad, v);
    assert Fits(rest, ms, seed, row);
    FitsUpdated(where, rest, ms, id, seed, row);
    FitsUpdated(where, rest, ms, id, seed, Updated(where, rest, ms, id, row).value);
  }

  lemma OneRowDatabase(
      table: string, identityColumn: string, where: seq<Condition>, row: Row, ms: seq<Mutation>, id: string, r: Row)
    requires Updated(where, row - {"_uuid", identityColumn}, ms, id, r).Some?
    ensures var ops := UpdateOps(table, identityColumn, where, row, ms);
      Commit(map[table := map[id := r]], ops) ==
      map[table := map[id := Updated(where, row - {"_uuid", identityColumn}, ms, id, r).value]]
  {
    var ops := UpdateOps(table, identityColumn, where, row, ms);
    var db := map[table := map[id := r]];
    var next := Updated(where, row - {"_uuid", identityColumn}, ms, id, r).value;
    RowRunUpdated(table, identityColumn, where, row, ms, table, id, r);
    RunCommits(db, ops);
    var out := Run(db, ops).value;
    RunRows(db, ops, table, id);
    forall other ensures other in out[table] <==> other == id {
      RunRows(db, ops, table, other);
    }
    assert out[table] == map[id := next];
    assert out == map[table := map[id := next]];
  }

  /** An update that is not resendable has one. */
  lemma HarmedRow(where: seq<Condition>, rest: Row, ms: seq<Mutation>, id: string, seed: Row, bad: string) returns (r: Row)
    requires ReadsOnlyOthers(where, rest, ms) && Selects(where, id, seed) && !Resendable(rest, ms)
    requires bad in Written(rest, ms) && !PairsRepeatable(UpdateEdits(rest, ms, bad))
    ensures Updated(where, rest, ms, id, r).Some?
    ensures var once := Updated(where, rest, ms, id, r).value;
      Updated(where, rest, ms, id, once).Some? && Updated(where, rest, ms, id, once).value != once
  {
    var es := UpdateEdits(rest, ms, bad);
    var k, p :| PairKey(es, k) && Named(es, k, p) && !Repeatable(es, k, p);
    BadValue(es, k, p);
    RowNotHarmless(where, rest, ms, id, seed, bad, Holding(k, p));
    r := WitnessRow(seed, rest, ms, bad, Holding(k, p));
  }

  lemma HarmedDatabase(
      table: string, identityColumn: string, where: seq<Condition>, row: Row, ms: seq<Mutation>, id: string, r: Row)
    requires Updated(where, row - {"_uuid", identityColumn}, ms, id, r).Some?
    requires var rest := row - {"_uuid", identityColumn};
      var once := Updated(where, rest, ms, id, r).value;
      Updated(where, rest, ms, id, once).Some? && Updated(where, rest, ms, id, once).value != once
    ensures exists db: Database :: !HarmlessOn(db, UpdateOps(table, identityColumn, where, row, ms))
  {
    var ops, db := UpdateOps(table, identityColumn, where, row, ms), map[table := map[id := r]];
    var once := Updated(where, row - {"_uuid", identityColumn}, ms, id, r).value;
    OneRowDatabase(table, identityColumn, where, row, ms, id, r);
    OneRowDatabase(table, identityColumn, where, row, ms, id, once);
    assert Commit(db, ops)[table][id] == once;
    assert !HarmlessOn(db, ops);
  }

  /** For an update that selects by columns it does not write, or by UUID, and can select
      something: it is harmless on every database if and only if it is resendable. */
  lemma UpdateResendExactly(
      table: string, identityColumn: string, where: seq<Condition>, row: Row, ms: seq<Mutation>, id: string, seed: Row)
    requires ReadsOnlyOthers(where, row - {"_uuid", identityColumn}, ms) && Selects(where, id, seed)
    ensures (forall db: Database :: HarmlessOn(db, UpdateOps(table, identityColumn, where, row, ms))) <==>
      Resendable(row - {"_uuid", identityColumn}, ms)
  {
    var rest, ops := row - {"_uuid", identityColumn}, UpdateOps(table, identityColumn, where, row, ms);
    if Resendable(rest, ms) {
      forall db: Database ensures HarmlessOn(db, ops) {
        ResendableIsHarmless(db, table, identityColumn, where, row, ms);
      }
    } else {
      var bad :| bad in Written(rest, ms) && !PairsRepeatable(UpdateEdits(rest, ms, bad));
      var r := HarmedRow(where, rest, ms, id, seed, bad);
      HarmedDatabase(table, identityColumn, where, row, ms, id, r);
    }
  }

  /** Four calls of DeleteMap and MutateMap on one builder: 2 to 3, then 1 to 2. */
  function ChainMutations(k: Atom): seq<Mutation> {
    [DeletePairs("p", map[k := Number(2)]), InsertMap("p", map[k := Number(3)]),
     DeletePairs("p", map[k := Number(1)]), InsertMap("p", map[k := Number(2)])]
  }

  /** Their transaction may be resent, and on some database that changes it again. */
  lemma PairDeletesAreNotHarmless(k: Atom)
    ensures var ops := UpdateOps("T", "_uuid", [UuidIs("r")], map[], ChainMutations(k));
      CanRetry(ops) && exists db: Database :: !HarmlessOn(db, ops)
  {
    var ms, where := ChainMutations(k), [UuidIs("r")];
    var rest: Row := map[];
    var ops := UpdateOps("T", "_uuid", where, rest, ms);
    assert rest - {"_uuid", "_uuid"} == rest;
    assert Selects(where, "r", map[]) && ConditionColumns(where) == {};
    PairChain(ms, k);
    assert "p" in Written(rest, ms) by {
      assert ms[0].column in MutatedColumns(ms);
    }
    forall c | c in Written(rest, ms) ensures c == "p" {
      var i :| 0 <= i < |ms| && ms[i].column == c;
      assert i in {0, 1, 2, 3};
    }
    assert !Resendable(rest, ms);
    UpdateResendExactly("T", "_uuid", where, rest, ms, "r", map[]);
    assert ops == [Mutate("T", where, ms)];
  }

  lemma PairChain(ms: seq<Mutation>, k: Atom)
    requires ms == ChainMutations(k)
    ensures Applies(UpdateEdits(map[], ms, "p")) && !PairsRepeatable(UpdateEdits(map[], ms, "p"))
  {
    var es := UpdateEdits(map[], ms, "p");
    assert ms[1..][1..][1..][1..] == [];
    assert ms[1..][0] == ms[1] && ms[1..][1..][0] == ms[2] && ms[1..][1..][1..][0] == ms[3];
    assert MutationEdits(ms[1..][1..][1..], "p") == [Change(ms[3])] + [];
    assert MutationEdits(ms[1..][1..], "p") == [Change(ms[2])] + [Change(ms[3])];
    assert MutationEdits(ms[1..], "p") == [Change(ms[1])] + [Change(ms[2]), Change(ms[3])];
    assert MutationEdits(ms, "p") == [Change(ms[0])] + [Change(ms[1]), Change(ms[2]), Change(ms[3])];
    assert es == [] + MutationEdits(ms, "p");
    assert es == [Change(ms[0]), Change(ms[1]), Change(ms[2]), Change(ms[3])];
    ProbeFour(es, k, Entry(Number(1)));
    ProbeFour(es, k, Entry(Number(2)));
    assert DeletesPair(es[2], k, Number(1)) && Named(es, k, Entry(Number(1))) && PairKey(es, k);
    assert ProbeRun(es, k, Entry(Number(1))) == Entry(Number(2));
    assert !Repeatable(es, k, Entry(Number(1)));
    MapEditsApply(map[], es);
    AppliesToSome(MapOf(map[]), es);
  }

  lemma ProbeFour(es: seq<Edit>, k: Atom, p: Probe)
    requires |es| == 4
    ensures ProbeRun(es, k, p) == ProbeStep(es[3], k, ProbeStep(es[2], k, ProbeStep(es[1], k, ProbeStep(es[0], k, p))))
  {
    var p1 := ProbeStep(es[0], k, p);
    var p2 := ProbeStep(es[1], k, p1);
    var p3 := ProbeStep(es[2], k, p2);
    var t1, t2, t3 := es[1..], es[2..], es[3..];
    assert es[1..][1..] == t2 && t2[1..] == t3 && t3[1..] == [];
    assert ProbeRun(t3, k, p3) == ProbeStep(es[3], k, p3);
    assert ProbeRun(t2, k, p2) == ProbeRun(t3, k, p3);
    assert ProbeRun(t1, k, p1) == ProbeRun(t2, k, p2);
  }

  lemma {:induction false} MapEditsApply(m: map<Atom, Atom>, es: seq<Edit>)
    requires forall i :: 0 <= i < |es| ==> es[i].Change? && !es[i].m.InsertSet?
    ensures ApplyEdits(MapOf(m), es).Some?
    decreases |es|
  {
    if es != [] {
      assert ApplyEdit(MapOf(m), es[0]).Some? && ApplyEdit(MapOf(m), es[0]).value.MapOf?;
      MapEditsApply(ApplyEdit(MapOf(m), es[0]).value.entries, es[1..]);
    }
  }
}
