/** The write side of the editor against an abstract database: which
    fields go into the write set of a table, and whether a write inserts a
    row or updates the matching ones.  The SQL statements themselves are
    not modelled; a table is a list of records. */
module Writes {
  import opened Wrappers
  import opened PyStrings
  import opened PyValues
  import opened Utils
  import opened Names
  import opened Fields

  /** A column of a write set: the column part of a field name, which is
      `None` for a name of four or more dotted pieces. */
  type Column = Option<string>

  type Record = map<Column, Value>

  /** The tables by name, the next key the database generates on an insert
      into a main table, and the column in which a main table keeps that
      key. */
  datatype Database = Database(tables: map<string, seq<Record>>, nextKey: nat, keyColumn: string)

  function RowsOf(db: Database, table: string): seq<Record> {
    if table in db.tables then db.tables[table] else []
  }

  function WithRows(db: Database, table: string, rows: seq<Record>): (r: Database)
    ensures RowsOf(r, table) == rows && r.nextKey == db.nextKey && r.keyColumn == db.keyColumn
    ensures forall t :: t != table ==> RowsOf(r, t) == RowsOf(db, t)
  {
    db.(tables := db.tables[table := rows])
  }

  // ---------------------------------------------------------------------
  // Routing fields to a table

  /** The table part of a field's database name as `_insert_or_update_table`
      computes it: the database part, when there is one, in front. */
  function FieldTablePart(dbField: string): Option<string> {
    var p := NameParts(dbField);
    if p.db.Some? then Some(p.db.value + "." + p.table.value) else p.table
  }

  /** Whether field `f` is written to the table with alias `tableAlias`:
      it belongs to the table (checked only when left joins are
      configured) and applies to the action. */
  function Routed(f: Field, tableAlias: string, joined: bool, action: string, values: Value): Res<bool>
    reads f
  {
    if joined && FieldTablePart(f.dbField) != Some(tableAlias) then Success(false)
    else f.Apply(action, values)
  }

  /** The write set of `_insert_or_update_table` over the fields `fs`: each
      routed field stores its set value under its column part. */
  function WriteSet(fs: seq<Field?>, tableAlias: string, joined: bool, action: string, values: Value): Res<Record>
    reads fs
    decreases |fs|
  {
    if |fs| == 0 then Success(map[])
    else
      var before :- WriteSet(fs[..|fs| - 1], tableAlias, joined, action, values);
      WriteField(before, fs[|fs| - 1], tableAlias, joined, action, values)
  }

  /** One field of the write set: a routed field stores its set value under
      its column part; an empty slot has no attributes. */
  function WriteField(before: Record, f: Field?, tableAlias: string, joined: bool, action: string, values: Value): Res<Record>
    reads f
  {
    if f == null then Failure(AttributeError)
    else
      var routed :- Routed(f, tableAlias, joined, action, values);
      if !routed then Success(before)
      else
        var v :- f.Val("set", values);
        Success(before[NameParts(f.dbField).column := v])
  }

  lemma WriteSetStep(fs: seq<Field?>, tableAlias: string, joined: bool, action: string, values: Value, i: nat, before: Record)
    requires i < |fs| && WriteSet(fs[..i], tableAlias, joined, action, values) == Success(before)
    ensures WriteSet(fs[..i + 1], tableAlias, joined, action, values) == WriteField(before, fs[i], tableAlias, joined, action, values)
  {
    assert fs[..i + 1][..i] == fs[..i];
  }

  lemma {:induction false} WriteSetPrefixFailure(fs: seq<Field?>, tableAlias: string, joined: bool, action: string, values: Value, k: nat)
    requires k <= |fs| && WriteSet(fs[..k], tableAlias, joined, action, values).Failure?
    ensures WriteSet(fs, tableAlias, joined, action, values) == WriteSet(fs[..k], tableAlias, joined, action, values)
    decreases |fs| - k
  {
    if k == |fs| {
      assert fs[..k] == fs;
    } else {
      var n := |fs| - 1;
      assert fs[..n][..k] == fs[..k];
      WriteSetPrefixFailure(fs[..n], tableAlias, joined, action, values, k);
    }
  }

  /** The write set built from `acc` on, field after field. */
  function WriteSetFrom(acc: Record, fs: seq<Field?>, tableAlias: string, joined: bool, action: string, values: Value): Res<Record>
    reads fs
    decreases |fs|
  {
    if |fs| == 0 then Success(acc)
    else
      var next :- WriteField(acc, fs[0], tableAlias, joined, action, values);
      WriteSetFrom(next, fs[1..], tableAlias, joined, action, values)
  }

  /** Building the rest of the write set from that of a prefix gives the
      write set of all the fields. */
  lemma {:induction false} WriteSetFromPrefix(fs: seq<Field?>, tableAlias: string, joined: bool, action: string, values: Value,
                                              i: nat, acc: Record)
    requires i <= |fs| && WriteSet(fs[..i], tableAlias, joined, action, values) == Success(acc)
    ensures WriteSetFrom(acc, fs[i..], tableAlias, joined, action, values) == WriteSet(fs, tableAlias, joined, action, values)
    decreases |fs| - i
  {
    if i == |fs| {
      assert fs[..i] == fs;
    } else {
      WriteSetStep(fs, tableAlias, joined, action, values, i, acc);
      assert fs[i..][1..] == fs[i + 1..];
      var next := WriteField(acc, fs[i], tableAlias, joined, action, values);
      if next.Failure? {
        WriteSetPrefixFailure(fs, tableAlias, joined, action, values, i + 1);
      } else {
        WriteSetFromPrefix(fs, tableAlias, joined, action, values, i + 1, next.value);
      }
    }
  }

  /** Every column of a write set comes from a routed field, and every
      routed field's column is in the write set. */
  lemma {:induction false} WriteSetColumns(fs: seq<Field?>, tableAlias: string, joined: bool, action: string, values: Value)
    requires WriteSet(fs, tableAlias, joined, action, values).Success?
    ensures forall k :: 0 <= k < |fs| ==> fs[k] != null && Routed(fs[k], tableAlias, joined, action, values).Success?
    ensures var changes := WriteSet(fs, tableAlias, joined, action, values).value;
      (forall c :: c in changes ==> exists k :: (0 <= k < |fs| && Routed(fs[k], tableAlias, joined, action, values) == Success(true)
         && NameParts(fs[k].dbField).column == c))
      && (forall k :: 0 <= k < |fs| && Routed(fs[k], tableAlias, joined, action, values) == Success(true) ==>
            NameParts(fs[k].dbField).column in changes)
    decreases |fs|
  {
    WriteSetFieldsRouted(fs, tableAlias, joined, action, values);
    WriteSetColumnsSound(fs, tableAlias, joined, action, values);
    WriteSetColumnsComplete(fs, tableAlias, joined, action, values);
  }

  lemma {:induction false} WriteSetFieldsRouted(fs: seq<Field?>, tableAlias: string, joined: bool, action: string, values: Value)
    requires WriteSet(fs, tableAlias, joined, action, values).Success?
    ensures forall k :: 0 <= k < |fs| ==> fs[k] != null && Routed(fs[k], tableAlias, joined, action, values).Success?
    decreases |fs|
  {
    if |fs| > 0 {
      var n := |fs| - 1;
      WriteSetFieldsRouted(fs[..n], tableAlias, joined, action, values);
      assert forall k :: 0 <= k < n ==> fs[..n][k] == fs[k];
    }
  }

  /** One field adds at most its own column, and only when it is routed. */
  lemma WriteFieldKeys(before: Record, f: Field, tableAlias: string, joined: bool, action: string, values: Value)
    requires WriteField(before, f, tableAlias, joined, action, values).Success?
    ensures var after := WriteField(before, f, tableAlias, joined, action, values).value;
      after == before
      || (Routed(f, tableAlias, joined, action, values) == Success(true)
          && after.Keys == before.Keys + {NameParts(f.dbField).column})
  {
  }

  lemma {:induction false} WriteSetColumnsSound(fs: seq<Field?>, tableAlias: string, joined: bool, action: string, values: Value)
    requires WriteSet(fs, tableAlias, joined, action, values).Success?
    requires forall k :: 0 <= k < |fs| ==> fs[k] != null
    ensures var changes := WriteSet(fs, tableAlias, joined, action, values).value;
      forall c :: c in changes ==> exists k :: (0 <= k < |fs| && Routed(fs[k], tableAlias, joined, action, values) == Success(true)
        && NameParts(fs[k].dbField).column == c)
    decreases |fs|
  {
    if |fs| > 0 {
      var n := |fs| - 1;
      var front := fs[..n];
      assert forall k :: 0 <= k < n ==> front[k] == fs[k];
      WriteSetColumnsSound(front, tableAlias, joined, action, values);
      var changes := WriteSet(fs, tableAlias, joined, action, values).value;
      var before := WriteSet(front, tableAlias, joined, action, values).value;
      var col := NameParts(fs[n].dbField).column;
      var routed := Routed(fs[n], tableAlias, joined, action, values);
      WriteFieldKeys(before, fs[n], tableAlias, joined, action, values);
      forall c | c in changes
        ensures exists k :: (0 <= k < |fs| && Routed(fs[k], tableAlias, joined, action, values) == Success(true)
          && NameParts(fs[k].dbField).column == c)
      {
        if c in before {
          var k :| 0 <= k < n && Routed(front[k], tableAlias, joined, action, values) == Success(true)
            && NameParts(front[k].dbField).column == c;
          assert fs[k] == front[k];
        } else {
          assert routed == Success(true) && c == col;
        }
      }
    }
  }

  lemma {:induction false} WriteSetColumnsComplete(fs: seq<Field?>, tableAlias: string, joined: bool, action: string, values: Value)
    requires WriteSet(fs, tableAlias, joined, action, values).Success?
    requires forall k :: 0 <= k < |fs| ==> fs[k] != null
    ensures var changes := WriteSet(fs, tableAlias, joined, action, values).value;
      forall k :: 0 <= k < |fs| && Routed(fs[k], tableAlias, joined, action, values) == Success(true) ==>
        NameParts(fs[k].dbField).column in changes
    decreases |fs|
  {
    if |fs| > 0 {
      var n := |fs| - 1;
      assert forall k :: 0 <= k < n ==> fs[..n][k] == fs[k];
      WriteSetColumnsComplete(fs[..n], tableAlias, joined, action, values);
      var before := WriteSet(fs[..n], tableAlias, joined, action, values).value;
      WriteFieldGrows(before, fs[n], tableAlias, joined, action, values);
    }
  }

  /** One field keeps every column already in the write set and adds its
      own when it is routed. */
  lemma WriteFieldGrows(before: Record, f: Field, tableAlias: string, joined: bool, action: string, values: Value)
    requires WriteField(before, f, tableAlias, joined, action, values).Success?
    ensures var after := WriteField(before, f, tableAlias, joined, action, values).value;
      before.Keys <= after.Keys
      && (Routed(f, tableAlias, joined, action, values) == Success(true) ==> NameParts(f.dbField).column in after)
  {
  }

  /** Without left joins every field is checked only for applicability:
      the table a field names does not matter. */
  lemma {:induction false} WriteSetIgnoresTableWithoutJoins(fs: seq<Field?>, alias1: string, alias2: string, action: string, values: Value)
    ensures WriteSet(fs, alias1, false, action, values) == WriteSet(fs, alias2, false, action, values)
    decreases |fs|
  {
    if |fs| > 0 {
      WriteSetIgnoresTableWithoutJoins(fs[..|fs| - 1], alias1, alias2, action, values);
    }
  }

  // ---------------------------------------------------------------------
  // Insert or update

  /** A record satisfies the `where` conditions when, for each condition
      key, the column part of the key holds an equal value. */
  predicate Matches(row: Record, where: Record)
    requires None !in where
  {
    forall wk :: wk in where ==>
      Some(SplitTableColumn(wk.value).0) in row && Eq(row[Some(SplitTableColumn(wk.value).0)], where[wk])
  }

  /** The records after `UPDATE ... SET changes WHERE where`. */
  function UpdateRows(rows: seq<Record>, changes: Record, where: Record): (r: seq<Record>)
    requires None !in where
    ensures |r| == |rows|
    ensures forall i :: 0 <= i < |rows| && !Matches(rows[i], where) ==> r[i] == rows[i]
    ensures forall i :: 0 <= i < |rows| && Matches(rows[i], where) ==>
      r[i].Keys == rows[i].Keys + changes.Keys && forall c :: c in changes ==> r[i][c] == changes[c]
  {
    seq(|rows|, i requires 0 <= i < |rows| => if Matches(rows[i], where) then rows[i] + changes else rows[i])
  }

  predicate AnyMatch(rows: seq<Record>, where: Record)
    requires None !in where
  {
    exists i :: 0 <= i < |rows| && Matches(rows[i], where)
  }

  /** The record a main table stores for an insert: the write set, with
      the generated key in the key column when the write set does not fill
      that column itself. */
  function KeyedRecord(db: Database, changes: Record): (r: Record)
    ensures Some(db.keyColumn) in r
    ensures Some(db.keyColumn) !in changes ==> r[Some(db.keyColumn)] == Str(IntToStr(db.nextKey))
    ensures r.Keys == changes.Keys + {Some(db.keyColumn)}
    ensures forall c :: c in changes ==> r[c] == changes[c]
  {
    if Some(db.keyColumn) in changes then changes
    else changes[Some(db.keyColumn) := Str(IntToStr(db.nextKey))]
  }

  /** The database write of `_insert_or_update_table` once the write set is
      known.  Without conditions a row is inserted, and an insert into a main
      table answers the generated key, which the new record holds.  With
      conditions a main table is updated, and a joined table is updated when
      some row matches and otherwise receives the write set together with
      the conditions.  A `None` condition key cannot be split and raises. */
  function Upsert(db: Database, table: string, isMain: bool, changes: Record, where: Option<Record>): Res<(Database, Option<string>)> {
    var rows := RowsOf(db, table);
    if where.None? then
      if isMain then
        var inserted := WithRows(db, table, rows + [KeyedRecord(db, changes)]);
        Success((inserted.(nextKey := db.nextKey + 1), Some(IntToStr(db.nextKey))))
      else Success((WithRows(db, table, rows + [changes]), None))
    else if None in where.value then Failure(TypeError)
    else if isMain || AnyMatch(rows, where.value) then
      Success((WithRows(db, table, UpdateRows(rows, changes, where.value)), None))
    else Success((WithRows(db, table, rows + [changes + where.value]), None))
  }

  /** What `_insert_or_update_table(table, values, where)` does: an empty
      write set writes nothing. */
  function TableWrite(db: Database, fs: seq<Field?>, joined: bool, mainTables: seq<string>,
                      table: string, values: Value, where: Option<Record>): Res<(Database, Option<string>)>
    reads fs
  {
    var action := if where.None? then "create" else "edit";
    var changes :- WriteSet(fs, Alias(table, "alias"), joined, action, values);
    if |changes| == 0 then Success((db, None))
    else Upsert(db, table, table in mainTables, changes, where)
  }

  /** Only the written table changes; an insert adds exactly one record at
      the end, an update keeps the number of records; only a create on a
      main table answers a key, and that key is the generated one. */
  lemma UpsertEffect(db: Database, table: string, isMain: bool, changes: Record, where: Option<Record>)
    requires Upsert(db, table, isMain, changes, where).Success?
    ensures var (db2, key) := Upsert(db, table, isMain, changes, where).value;
      (forall t :: t != table ==> RowsOf(db2, t) == RowsOf(db, t))
      && (where.None? && isMain ==> RowsOf(db2, table) == RowsOf(db, table) + [KeyedRecord(db, changes)])
      && (where.None? && !isMain ==> RowsOf(db2, table) == RowsOf(db, table) + [changes])
      && (where.Some? && (isMain || AnyMatch(RowsOf(db, table), where.value)) ==>
            RowsOf(db2, table) == UpdateRows(RowsOf(db, table), changes, where.value))
      && (where.Some? && !isMain && !AnyMatch(RowsOf(db, table), where.value) ==>
            RowsOf(db2, table) == RowsOf(db, table) + [changes + where.value])
      && (key.Some? <==> where.None? && isMain)
      && (key.Some? ==> key.value == IntToStr(db.nextKey) && db2.nextKey == db.nextKey + 1)
      && (key.None? ==> db2.nextKey == db.nextKey)
      && db2.keyColumn == db.keyColumn
  {
  }

  /** A record created in a main table can be edited through the key the
      create answered: an update whose only condition is that key in the key
      column changes the new record, and no other record of the table that
      does not hold that key. */
  lemma CreatedRecordUpdatable(db: Database, table: string, changes: Record, updates: Record)
    requires Some(db.keyColumn) !in changes && !Contains(db.keyColumn, ".")
    ensures Upsert(db, table, true, changes, None).Success?
    ensures var (db1, key) := Upsert(db, table, true, changes, None).value;
      var where := map[Some(db.keyColumn) := Str(key.value)];
      var n := |RowsOf(db, table)|;
      Upsert(db1, table, true, updates, Some(where)).Success?
      && var rows2 := RowsOf(Upsert(db1, table, true, updates, Some(where)).value.0, table);
      |rows2| == n + 1
      && rows2[n] == KeyedRecord(db, changes) + updates
      && forall i :: 0 <= i < n && !Matches(RowsOf(db, table)[i], where) ==> rows2[i] == RowsOf(db, table)[i]
  {
    UpsertEffect(db, table, true, changes, None);
    var w := Upsert(db, table, true, changes, None).value;
    var where := map[Some(db.keyColumn) := Str(w.1.value)];
    KeyedRecordMatchesKey(db, changes);
    UpsertEffect(w.0, table, true, updates, Some(where));
    UpdateReachesLast(RowsOf(db, table), KeyedRecord(db, changes), updates, where);
  }

  /** The record of a main insert meets the condition "the key column holds
      the generated key". */
  lemma KeyedRecordMatchesKey(db: Database, changes: Record)
    requires Some(db.keyColumn) !in changes && !Contains(db.keyColumn, ".")
    ensures var where := map[Some(db.keyColumn) := Str(IntToStr(db.nextKey))];
      None !in where && Matches(KeyedRecord(db, changes), where)
  {
    assert SplitTableColumn(db.keyColumn).0 == db.keyColumn;
    EqReflexive(Str(IntToStr(db.nextKey)));
  }

  /** An update whose conditions the last record meets changes that record
      and leaves alone every earlier record that does not meet them. */
  lemma UpdateReachesLast(rows: seq<Record>, last: Record, changes: Record, where: Record)
    requires None !in where && Matches(last, where)
    ensures var r := UpdateRows(rows + [last], changes, where);
      |r| == |rows| + 1 && r[|rows|] == last + changes
      && forall i :: 0 <= i < |rows| && !Matches(rows[i], where) ==> r[i] == rows[i]
  {
    var all := rows + [last];
    assert all[|rows|] == last;
    forall i | 0 <= i < |rows| ensures all[i] == rows[i] {
    }
  }

  /** An update of a main table adds no record and generates no key. */
  lemma MainUpdateKeepsCounts(db: Database, table: string, changes: Record, where: Record)
    requires Upsert(db, table, true, changes, Some(where)).Success?
    ensures var w := Upsert(db, table, true, changes, Some(where)).value;
      w.1.None? && w.0.nextKey == db.nextKey && forall t :: |RowsOf(w.0, t)| == |RowsOf(db, t)|
  {
    UpsertEffect(db, table, true, changes, Some(where));
  }

  /** Generated keys are distinct: inserting into a main table twice
      answers two different keys. */
  lemma GeneratedKeysDiffer(db: Database, t1: string, t2: string, s1: Record, s2: Record)
    requires Upsert(db, t1, true, s1, None).Success?
    ensures var (db1, k1) := Upsert(db, t1, true, s1, None).value;
      Upsert(db1, t2, true, s2, None).Success?
      && Upsert(db1, t2, true, s2, None).value.1 != k1
  {
    DecimalDigits(db.nextKey);
    DecimalDigits(db.nextKey + 1);
  }

  /** A write on link conditions to a table that is not a main table
      succeeds and changes only that table: the matching records are
      updated, or, when none matches, the write set and the conditions are
      inserted together, after which a record matches. */
  lemma LinkedUpsertEffect(db: Database, table: string, changes: Record, where: Record)
    requires None !in where && forall wk :: wk in where ==> !Contains(wk.value, ".")
    ensures Upsert(db, table, false, changes, Some(where)).Success?
    ensures var db2 := Upsert(db, table, false, changes, Some(where)).value.0;
      var rows := RowsOf(db, table);
      (forall t :: t != table ==> RowsOf(db2, t) == RowsOf(db, t))
      && db2.nextKey == db.nextKey
      && (AnyMatch(rows, where) ==> RowsOf(db2, table) == UpdateRows(rows, changes, where))
      && (!AnyMatch(rows, where) ==> RowsOf(db2, table) == rows + [changes + where] && AnyMatch(RowsOf(db2, table), where))
  {
    UpsertEffect(db, table, false, changes, Some(where));
    if !AnyMatch(RowsOf(db, table), where) {
      LinkedInsertThenMatches(db, table, changes, where);
    }
  }

  /** An update on a joined table that has no matching row inserts one
      that does match, so a second identical write updates it instead of
      inserting again. */
  lemma LinkedInsertThenMatches(db: Database, table: string, changes: Record, where: Record)
    requires None !in where && !AnyMatch(RowsOf(db, table), where)
    requires forall wk :: wk in where ==> !Contains(wk.value, ".")
    ensures var db2 := Upsert(db, table, false, changes, Some(where)).value.0;
      AnyMatch(RowsOf(db2, table), where)
  {
    var db2 := Upsert(db, table, false, changes, Some(where)).value.0;
    var rows2 := RowsOf(db2, table);
    var last := changes + where;
    assert rows2[|rows2| - 1] == last;
    forall wk | wk in where
      ensures Some(SplitTableColumn(wk.value).0) in last && Eq(last[Some(SplitTableColumn(wk.value).0)], where[wk])
    {
      assert SplitTableColumn(wk.value).0 == wk.value;
      EqReflexive(where[wk]);
    }
  }
}
