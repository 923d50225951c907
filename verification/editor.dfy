/** `Editor`: the request engine.  It holds the configuration (tables,
    primary key, fields, left joins, event handlers), validates submitted
    rows, decides what a removal cancels and deletes, and routes the fields
    of a create or edit to the tables of an abstract database. */
module Editors {
  import opened Wrappers
  import opened PyStrings
  import opened PyValues
  import opened NestedData
  import Requests
  import opened Names
  import opened PrimaryKeys
  import opened Fields
  import opened ValidationSettings
  import opened Writes

  /** An event handler, called with the trigger's arguments.  (The source
      also passes the editor itself first; handlers here have no access to
      it and no side effects.) */
  type Handler = seq<Value> -> Value

  /** A submitted row: its key in `data['data']` and its values. */
  type Row = (string, Value)

  /** One entry of `fieldErrors`. */
  datatype FieldError = FieldError(id: string, name: string, status: Value)

  /** A deletion request for `__remove_table(table, ids, pkey)`. */
  datatype Removal = Removal(table: string, ids: seq<string>, keys: Option<seq<string>>)

  /** The argument of `pkey(...)` and of `table(...)`: one name or a list. */
  datatype NameArg = One(name: string) | Many(names: seq<string>)

  function NamesOf(arg: NameArg): seq<string> {
    match arg
    case One(n) => [n]
    case Many(ns) => ns
  }

  // ---------------------------------------------------------------------
  // Events

  /** The answer of `_trigger` over `handlers`: every handler is called in
      order, and the last result that is not `None` wins. */
  function Outcome(handlers: seq<Handler>, args: seq<Value>): Value
    decreases |handlers|
  {
    if |handlers| == 0 then Null
    else
      var res := handlers[|handlers| - 1](args);
      if !res.Null? then res else Outcome(handlers[..|handlers| - 1], args)
  }

  /** `None` exactly when every handler answers `None`; otherwise the
      answer of some handler after which every handler answers `None`. */
  lemma {:induction false} OutcomeIsLastAnswer(handlers: seq<Handler>, args: seq<Value>)
    ensures Outcome(handlers, args).Null? <==> forall k :: 0 <= k < |handlers| ==> handlers[k](args).Null?
    ensures !Outcome(handlers, args).Null? ==>
      exists k :: 0 <= k < |handlers| && handlers[k](args) == Outcome(handlers, args)
        && forall j :: k < j < |handlers| ==> handlers[j](args).Null?
    decreases |handlers|
  {
    if |handlers| > 0 {
      var n := |handlers| - 1;
      var front := handlers[..n];
      OutcomeIsLastAnswer(front, args);
      assert forall k :: 0 <= k < n ==> front[k] == handlers[k];
      if !handlers[n](args).Null? {
        assert handlers[n](args) == Outcome(handlers, args);
      } else if !Outcome(front, args).Null? {
        var k :| 0 <= k < n && front[k](args) == Outcome(front, args)
          && forall j :: k < j < n ==> front[j](args).Null?;
        assert handlers[k](args) == Outcome(handlers, args);
      }
    }
  }

  /** A handler registered later overrides the earlier ones whenever it
      answers something other than `None`, and is transparent otherwise. */
  lemma LaterHandlerOverrides(handlers: seq<Handler>, h: Handler, args: seq<Value>)
    ensures !h(args).Null? ==> Outcome(handlers + [h], args) == h(args)
    ensures h(args).Null? ==> Outcome(handlers + [h], args) == Outcome(handlers, args)
  {
    assert (handlers + [h])[..|handlers|] == handlers;
  }

  // ---------------------------------------------------------------------
  // Field lookup

  /** Whether field `f` answers to `name` as a field name (`'name'`) or as a
      database column (`'db'`). */
  predicate AnswersTo(f: Field, name: string, kind: string)
    reads f
  {
    (kind == "name" && f.name == name) || (kind == "db" && f.dbField == name)
  }

  /** The position of the first field, skipping empty slots, that answers
      to `name`. */
  function FirstAnswering(fs: seq<Field?>, name: string, kind: string): (r: Option<nat>)
    reads fs
    ensures r.Some? ==> r.value < |fs| && fs[r.value] != null && AnswersTo(fs[r.value], name, kind)
    ensures r.Some? ==> forall k :: 0 <= k < r.value && fs[k] != null ==> !AnswersTo(fs[k], name, kind)
    ensures r.None? ==> forall k :: 0 <= k < |fs| && fs[k] != null ==> !AnswersTo(fs[k], name, kind)
    decreases |fs|
  {
    if |fs| == 0 then None
    else if fs[0] != null && AnswersTo(fs[0], name, kind) then Some(0)
    else
      var r := FirstAnswering(fs[1..], name, kind);
      assert forall k :: 0 <= k < |fs| - 1 ==> fs[1..][k] == fs[k + 1];
      if r.None? then None else Some(r.value + 1)
  }

  /** The position of the field named `name` for `field(name)`: the search
      raises on an empty slot met before the field. */
  function NamedPosition(fs: seq<Field?>, name: string): (r: Res<Option<nat>>)
    reads fs
    ensures r.Success? && r.value.Some? ==>
      r.value.value < |fs| && fs[r.value.value] != null && fs[r.value.value].name == name
      && forall k :: 0 <= k < r.value.value ==> fs[k] != null && fs[k].name != name
    ensures r.Success? && r.value.None? ==> forall k :: 0 <= k < |fs| ==> fs[k] != null && fs[k].name != name
    ensures r.Failure? ==> (r.error == AttributeError
      && exists k :: 0 <= k < |fs| && fs[k] == null && forall j :: 0 <= j < k ==> fs[j] != null && fs[j].name != name)
    decreases |fs|
  {
    if |fs| == 0 then Success(None)
    else if fs[0] == null then Failure(AttributeError)
    else if fs[0].name == name then Success(Some(0))
    else
      var r := NamedPosition(fs[1..], name);
      assert forall k :: 0 <= k < |fs| - 1 ==> fs[1..][k] == fs[k + 1];
      if r.Failure? then Failure(r.error)
      else if r.value.None? then Success(None) else Success(Some(r.value.value + 1))
  }

  // ---------------------------------------------------------------------
  // Validation

  /** The errors gathered so far, and the exception that stopped the
      gathering, if any. */
  datatype Gathered = Gathered(errors: seq<FieldError>, failure: Option<Error>)

  /** Gathering `a` and then, unless it failed, `b`. */
  function Then(a: Gathered, b: Gathered): Gathered {
    if a.failure.Some? then a else Gathered(a.errors + b.errors, b.failure)
  }

  lemma ThenAssociates(a: Gathered, b: Gathered, c: Gathered)
    ensures Then(Then(a, b), c) == Then(a, Then(b, c))
  {
  }

  /** The validator options every field in `fs` reads. */
  function FieldsFootprint(fs: seq<Field?>): set<ValidationOptions>
    reads fs
  {
    set k, o | 0 <= k < |fs| && fs[k] != null && o in fs[k].ValidatorsFootprint() :: o
  }

  /** The fields in `fs`, without the empty slots. */
  function NonNull(fs: seq<Field?>): set<Field> {
    set k | 0 <= k < |fs| && fs[k] != null :: fs[k]
  }

  /** The verdict of one field on one row: an error entry when the field's
      validation answers something other than `True`. */
  function Verdict(f: Field, id: string, values: Value, action: string): Gathered
    reads f, f.ValidatorsFootprint()
  {
    match f.ValidateSpec(values, Str(id), action)
    case Failure(e) => Gathered([], Some(e))
    case Success(v) => Gathered(if Eq(v, Bool(true)) then [] else [FieldError(id, f.dbField, v)], None)
  }

  /** The fields' verdicts on one row, in field order. */
  function RowVerdicts(fs: seq<Field?>, id: string, values: Value, action: string): Gathered
    reads fs, FieldsFootprint(fs)
    decreases |fs|
  {
    if |fs| == 0 then Gathered([], None)
    else if fs[0] == null then Gathered([], Some(AttributeError))
    else
      assert fs[0].ValidatorsFootprint() <= FieldsFootprint(fs);
      assert FieldsFootprint(fs[1..]) <= FieldsFootprint(fs) by {
        forall o | o in FieldsFootprint(fs[1..]) ensures o in FieldsFootprint(fs) {
          var k :| 0 <= k < |fs[1..]| && fs[1..][k] != null && o in fs[1..][k].ValidatorsFootprint();
          assert fs[k + 1] == fs[1..][k];
        }
      }
      Then(Verdict(fs[0], id, values, action), RowVerdicts(fs[1..], id, values, action))
  }

  /** The verdicts on every row, row by row. */
  function AllVerdicts(rows: seq<Row>, fs: seq<Field?>, action: string): Gathered
    reads fs, FieldsFootprint(fs)
    decreases |rows|
  {
    if |rows| == 0 then Gathered([], None)
    else Then(RowVerdicts(fs, rows[0].0, rows[0].1, action), AllVerdicts(rows[1..], fs, action))
  }

  /** Whether `e` is the error entry field `f` reports for row `id`. */
  predicate Flags(f: Field, id: string, values: Value, action: string, e: FieldError)
    reads f, f.ValidatorsFootprint()
  {
    e.id == id && e.name == f.dbField
    && f.ValidateSpec(values, Str(id), action) == Success(e.status) && !Eq(e.status, Bool(true))
  }

  /** The footprint of the fields after the first lies within that of all
      of them, and so does the first field's own. */
  lemma FootprintTail(fs: seq<Field?>)
    requires |fs| > 0
    ensures FieldsFootprint(fs[1..]) <= FieldsFootprint(fs)
    ensures fs[0] != null ==> fs[0].ValidatorsFootprint() <= FieldsFootprint(fs)
  {
    forall o | o in FieldsFootprint(fs[1..]) ensures o in FieldsFootprint(fs) {
      var k :| 0 <= k < |fs[1..]| && fs[1..][k] != null && o in fs[1..][k].ValidatorsFootprint();
      assert fs[k + 1] == fs[1..][k];
    }
  }

  /** When no validation raises, every slot holds a field whose validation
      of the row answers. */
  lemma {:induction false} RowVerdictsAnswer(fs: seq<Field?>, id: string, values: Value, action: string)
    requires RowVerdicts(fs, id, values, action).failure.None?
    ensures forall k :: 0 <= k < |fs| ==> fs[k] != null && fs[k].ValidateSpec(values, Str(id), action).Success?
    decreases |fs|
  {
    if |fs| > 0 {
      FootprintTail(fs);
      RowVerdictsAnswer(fs[1..], id, values, action);
      assert forall k :: 0 < k < |fs| ==> fs[k] == fs[1..][k - 1];
    }
  }

  /** Every error entry gathered for a row is the report of some field whose
      validation of that row answers something other than `True`. */
  lemma {:induction false} RowVerdictsSound(fs: seq<Field?>, id: string, values: Value, action: string)
    requires RowVerdicts(fs, id, values, action).failure.None?
    ensures forall e :: e in RowVerdicts(fs, id, values, action).errors ==>
      exists k :: 0 <= k < |fs| && fs[k] != null && Flags(fs[k], id, values, action, e)
    decreases |fs|
  {
    if |fs| > 0 {
      var rest := fs[1..];
      FootprintTail(fs);
      RowVerdictsSound(rest, id, values, action);
      forall e | e in RowVerdicts(fs, id, values, action).errors
        ensures exists k :: 0 <= k < |fs| && fs[k] != null && Flags(fs[k], id, values, action, e)
      {
        if e !in RowVerdicts(rest, id, values, action).errors {
          assert Flags(fs[0], id, values, action, e);
        } else {
          var k :| 0 <= k < |rest| && rest[k] != null && Flags(rest[k], id, values, action, e);
          assert fs[k + 1] == rest[k];
        }
      }
    }
  }

  /** Every field whose validation of a row answers something other than
      `True` has its report gathered for that row. */
  lemma {:induction false} RowVerdictsComplete(fs: seq<Field?>, id: string, values: Value, action: string)
    requires RowVerdicts(fs, id, values, action).failure.None?
    ensures forall e :: (exists k :: 0 <= k < |fs| && fs[k] != null && Flags(fs[k], id, values, action, e)) ==>
      e in RowVerdicts(fs, id, values, action).errors
    decreases |fs|
  {
    if |fs| > 0 {
      var rest := fs[1..];
      FootprintTail(fs);
      RowVerdictsComplete(rest, id, values, action);
      forall e | exists k :: 0 <= k < |fs| && fs[k] != null && Flags(fs[k], id, values, action, e)
        ensures e in RowVerdicts(fs, id, values, action).errors
      {
        var k :| 0 <= k < |fs| && fs[k] != null && Flags(fs[k], id, values, action, e);
        if k > 0 {
          assert rest[k - 1] == fs[k];
        }
      }
    }
  }

  /** With no fields nothing is gathered; with fields whose validations all
      answer `True` nothing is gathered either. */
  lemma {:induction false} AllValidRowsGatherNothing(rows: seq<Row>, fs: seq<Field?>, action: string)
    requires forall k :: 0 <= k < |fs| ==> fs[k] != null
    requires forall i, k :: 0 <= i < |rows| && 0 <= k < |fs| ==>
      fs[k].ValidateSpec(rows[i].1, Str(rows[i].0), action) == Success(Bool(true))
    ensures AllVerdicts(rows, fs, action) == Gathered([], None)
    decreases |rows|
  {
    if |rows| > 0 {
      AllValidRowsGatherNothing(rows[1..], fs, action);
      RowAllValid(fs, rows[0].0, rows[0].1, action);
    }
  }

  lemma {:induction false} RowAllValid(fs: seq<Field?>, id: string, values: Value, action: string)
    requires forall k :: 0 <= k < |fs| ==> fs[k] != null && fs[k].ValidateSpec(values, Str(id), action) == Success(Bool(true))
    ensures RowVerdicts(fs, id, values, action) == Gathered([], None)
    decreases |fs|
  {
    if |fs| > 0 {
      FootprintTail(fs);
      RowAllValid(fs[1..], id, values, action);
    }
  }

  // ---------------------------------------------------------------------
  // Removal and the pre-write hooks

  /** Whether a hook answer cancels the row: it is equal to `False`
      (so `0` cancels too, and `None` does not). */
  predicate CancelledBy(answer: Value) {
    Eq(answer, Bool(false))
  }

  /** The partition of `__remove`: each row key, with the id prefix
      removed, goes to the cancelled list when its `preRemove` answer
      cancels it, and to the ids otherwise, both in submission order. */
  function RemovePartition(rows: seq<Row>, prefix: string, handlers: seq<Handler>): (seq<string>, seq<string>)
    decreases |rows|
  {
    if |rows| == 0 then ([], [])
    else
      var before := RemovePartition(rows[..|rows| - 1], prefix, handlers);
      var id := Replace(rows[|rows| - 1].0, prefix, "");
      if CancelledBy(Outcome(handlers, [Str(id), rows[|rows| - 1].1])) then (before.0 + [id], before.1)
      else (before.0, before.1 + [id])
  }

  /** The ids of the rows, prefix removed. */
  function StrippedKeys(rows: seq<Row>, prefix: string): (r: seq<string>)
    ensures |r| == |rows|
    ensures forall i :: 0 <= i < |rows| ==> r[i] == Replace(rows[i].0, prefix, "")
    decreases |rows|
  {
    if |rows| == 0 then []
    else
      var front := rows[..|rows| - 1];
      assert forall i :: 0 <= i < |front| ==> front[i] == rows[i];
      StrippedKeys(front, prefix) + [Replace(rows[|rows| - 1].0, prefix, "")]
  }

  lemma StrippedKeysSnoc(rows: seq<Row>, prefix: string)
    requires |rows| > 0
    ensures StrippedKeys(rows, prefix)
      == StrippedKeys(rows[..|rows| - 1], prefix) + [Replace(rows[|rows| - 1].0, prefix, "")]
  {
    assert StrippedKeys(rows, prefix)
      == StrippedKeys(rows[..|rows| - 1], prefix) + [Replace(rows[|rows| - 1].0, prefix, "")];
  }

  /** One more row adds its stripped key to one side of the partition. */
  lemma RemovePartitionSnoc(rows: seq<Row>, prefix: string, handlers: seq<Handler>)
    requires |rows| > 0
    ensures var before := RemovePartition(rows[..|rows| - 1], prefix, handlers);
      var after := RemovePartition(rows, prefix, handlers);
      multiset(after.0) + multiset(after.1)
        == multiset(before.0) + multiset(before.1) + multiset{Replace(rows[|rows| - 1].0, prefix, "")}
  {
  }

  /** The partition splits the stripped keys: together the two lists hold
      each of them once. */
  lemma {:induction false} RemovePartitionCounts(rows: seq<Row>, prefix: string, handlers: seq<Handler>)
    ensures multiset(RemovePartition(rows, prefix, handlers).0) + multiset(RemovePartition(rows, prefix, handlers).1)
      == multiset(StrippedKeys(rows, prefix))
    decreases |rows|
  {
    if |rows| > 0 {
      var n := |rows| - 1;
      RemovePartitionCounts(rows[..n], prefix, handlers);
      RemovePartitionSnoc(rows, prefix, handlers);
      StrippedKeysSnoc(rows, prefix);
    } else {
      assert StrippedKeys(rows, prefix) == [];
    }
  }

  /** A cancelled id comes from a row whose `preRemove` answer cancels it,
      and a removed id from a row whose answer does not. */
  lemma {:induction false} RemovePartitionSides(rows: seq<Row>, prefix: string, handlers: seq<Handler>)
    ensures forall id :: id in RemovePartition(rows, prefix, handlers).0 ==>
      (exists i :: 0 <= i < |rows| && Replace(rows[i].0, prefix, "") == id
         && CancelledBy(Outcome(handlers, [Str(id), rows[i].1])))
    ensures forall id :: id in RemovePartition(rows, prefix, handlers).1 ==>
      (exists i :: 0 <= i < |rows| && Replace(rows[i].0, prefix, "") == id
         && !CancelledBy(Outcome(handlers, [Str(id), rows[i].1])))
    decreases |rows|
  {
    if |rows| > 0 {
      var n := |rows| - 1;
      var front := rows[..n];
      RemovePartitionSides(front, prefix, handlers);
      assert forall i :: 0 <= i < n ==> front[i] == rows[i];
    }
  }

  /** With no `preRemove` handler nothing is cancelled and every row is
      removed, in submission order. */
  lemma {:induction false} RemoveWithoutHandlers(rows: seq<Row>, prefix: string)
    ensures RemovePartition(rows, prefix, []) == ([], StrippedKeys(rows, prefix))
    decreases |rows|
  {
    if |rows| > 0 {
      var n := |rows| - 1;
      RemoveWithoutHandlers(rows[..n], prefix);
      assert StrippedKeys(rows, prefix) == StrippedKeys(rows[..n], prefix) + [Replace(rows[n].0, prefix, "")];
    }
  }

  /** The removals of the joined tables when `left_join_remove` is on:
      a join is removed through its child link when its parent link is the
      single primary key column. */
  function LinkRemovals(joins: seq<LeftJoin>, ids: seq<string>, pkey: seq<string>): (r: seq<Removal>)
    requires |pkey| > 0
    ensures forall x :: x in r ==> x.ids == ids && x.keys.Some?
    decreases |joins|
  {
    if |joins| == 0 then []
    else
      var front := LinkRemovals(joins[..|joins| - 1], ids, pkey);
      var j := joins[|joins| - 1];
      var roles := RemoveRoles(j);
      if roles.parent == pkey[0] && |pkey| == 1 then front + [Removal(j.table, ids, Some([roles.child]))]
      else front
  }

  /** The removals of the main tables. */
  function TableRemovals(tables: seq<string>, ids: seq<string>): (r: seq<Removal>)
    ensures |r| == |tables|
    ensures forall k :: 0 <= k < |tables| ==> r[k] == Removal(tables[k], ids, None)
    decreases |tables|
  {
    if |tables| == 0 then [] else [Removal(tables[0], ids, None)] + TableRemovals(tables[1..], ids)
  }

  /** Whether some row is submitted under `key`. */
  predicate HasKey(rows: seq<Row>, key: string) {
    exists i :: 0 <= i < |rows| && rows[i].0 == key
  }

  /** The values submitted under `key`: the last row with that key, as a
      dictionary built from the rows keeps the last value it is given. */
  function RowValues(rows: seq<Row>, key: string): (r: Value)
    requires HasKey(rows, key)
    ensures exists i :: 0 <= i < |rows| && rows[i] == (key, r) && forall j :: i < j < |rows| ==> rows[j].0 != key
  {
    var last := rows[|rows| - 1];
    if last.0 == key then last.1
    else
      assert HasKey(rows[..|rows| - 1], key) by {
        var i :| 0 <= i < |rows| && rows[i].0 == key;
        assert rows[..|rows| - 1][i].0 == key;
      }
      var r := RowValues(rows[..|rows| - 1], key);
      assert forall i :: 0 <= i < |rows| - 1 ==> rows[..|rows| - 1][i] == rows[i];
      r
  }

  /** The first id that, with the prefix put back, names no submitted row. */
  function FirstUnnamed(ids: seq<string>, rows: seq<Row>, prefix: string): (r: Option<string>)
    ensures r.None? ==> forall k :: 0 <= k < |ids| ==> HasKey(rows, prefix + ids[k])
    ensures r.Some? ==> exists k :: 0 <= k < |ids| && r.value == prefix + ids[k] && !HasKey(rows, r.value)
    decreases |ids|
  {
    if |ids| == 0 then None
    else if HasKey(rows, prefix + ids[0]) then
      var r := FirstUnnamed(ids[1..], rows, prefix);
      assert forall k :: 0 <= k < |ids| - 1 ==> ids[1..][k] == ids[k + 1];
      r
    else Some(prefix + ids[0])
  }

  /** The arguments of the pre-write hook of a create (`values`) or an edit
      (the id without prefix, then `values`). */
  function HookArgs(create: bool, key: string, values: Value, prefix: string): seq<Value> {
    if create then [values] else [Str(Replace(key, prefix, "")), values]
  }

  /** Whether the pre-write hooks cancel a row. */
  predicate HookCancels(handlers: seq<Handler>, create: bool, row: Row, prefix: string) {
    CancelledBy(Outcome(handlers, HookArgs(create, row.0, row.1, prefix)))
  }

  /** The loop of `_trigger`: every handler is called in turn, and the
      last answer other than `None` is the outcome. */
  method Fire(handlers: seq<Handler>, args: seq<Value>) returns (r: Value)
    ensures r == Outcome(handlers, args)
  {
    r := Null;
    for i := 0 to |handlers|
      invariant r == Outcome(handlers[..i], args)
    {
      assert handlers[..i + 1][..i] == handlers[..i];
      var res := handlers[i](args);
      if !res.Null? {
        r := res;
      }
    }
    assert handlers[..|handlers|] == handlers;
  }

  /** The loop of the pre-write hooks over the live dictionary: it stops
      at the first cancellation, whose key it records, with the error the
      next step of the iteration raises. */
  method ScreenRowsAsWritten(handlers: seq<Handler>, rows: seq<Row>, create: bool, prefix: string)
    returns (r: Res<seq<Row>>, dropped: seq<string>)
    ensures var flags := HookFlags(rows, handlers, create, prefix);
      r == HooksAsWritten(rows, flags)
      && (FirstSet(flags).None? ==> dropped == [])
      && (FirstSet(flags).Some? ==> dropped == [rows[FirstSet(flags).value].0])
  {
    ghost var flags := HookFlags(rows, handlers, create, prefix);
    for i := 0 to |rows|
      invariant forall k :: 0 <= k < i ==> !flags[k]
    {
      var cancel := Fire(handlers, HookArgs(create, rows[i].0, rows[i].1, prefix));
      if CancelledBy(cancel) {
        FirstSetAt(flags, i);
        return Failure(RuntimeError), [rows[i].0];
      }
    }
    return Success(rows), [];
  }

  lemma AllVerdictsUnfold(rows: seq<Row>, fs: seq<Field?>, action: string)
    requires |rows| > 0
    ensures AllVerdicts(rows, fs, action) == Then(RowVerdicts(fs, rows[0].0, rows[0].1, action), AllVerdicts(rows[1..], fs, action))
  {
  }

  /** The row loop of `_validate`: the errors found in all rows, and the
      exception that stopped the loops, if any. */
  method AllErrors(rows: seq<Row>, fs: seq<Field?>, action: string) returns (g: Gathered)
    ensures g == AllVerdicts(rows, fs, action)
    ensures unchanged(NonNull(fs)) && unchanged(FieldsFootprint(fs))
  {
    g := Gathered([], None);
    var rest := rows;
    while |rest| > 0
      invariant g.failure.None?
      invariant unchanged(NonNull(fs)) && unchanged(FieldsFootprint(fs))
      invariant AllVerdicts(rows, fs, action) == Then(g, AllVerdicts(rest, fs, action))
    {
      AllVerdictsUnfold(rest, fs, action);
      var row := RowErrors(fs, rest[0].0, rest[0].1, action);
      ThenAssociates(g, row, AllVerdicts(rest[1..], fs, action));
      g := Then(g, row);
      if g.failure.Some? {
        return g;
      }
      rest := rest[1..];
    }
    assert g.errors + [] == g.errors;
  }

  /** The field loop of `_validate` for one row: the errors found, and the
      exception that stopped the loop, if any. */
  method RowErrors(fs: seq<Field?>, id: string, values: Value, action: string) returns (g: Gathered)
    ensures g == RowVerdicts(fs, id, values, action)
    ensures unchanged(NonNull(fs)) && unchanged(FieldsFootprint(fs))
  {
    g := Gathered([], None);
    var rest := fs;
    while |rest| > 0
      invariant g.failure.None?
      invariant RowVerdicts(fs, id, values, action) == Then(g, RowVerdicts(rest, id, values, action))
    {
      var field := rest[0];
      if field == null {
        return Then(g, Gathered([], Some(AttributeError)));
      }
      var verdict := Verdict(field, id, values, action);
      ThenAssociates(g, verdict, RowVerdicts(rest[1..], id, values, action));
      g := Then(g, verdict);
      if g.failure.Some? {
        return g;
      }
      rest := rest[1..];
    }
    assert g.errors + [] == g.errors;
  }

  /** The `preRemove` loop of `__remove` on the handlers: the ids the
      hooks cancel, and the others. */
  method ScreenRemovals(handlers: seq<Handler>, rows: seq<Row>, prefix: string) returns (dropped: seq<string>, ids: seq<string>)
    ensures (dropped, ids) == RemovePartition(rows, prefix, handlers)
  {
    dropped, ids := [], [];
    for i := 0 to |rows|
      invariant RemovePartition(rows[..i], prefix, handlers) == (dropped, ids)
    {
      assert rows[..i + 1][..i] == rows[..i];
      var id := Replace(rows[i].0, prefix, "");
      var res := Fire(handlers, [Str(id), rows[i].1]);
      if CancelledBy(res) {
        dropped := dropped + [id];
      } else {
        ids := ids + [id];
      }
    }
    assert rows[..|rows|] == rows;
  }

  /** The loop of the pre-write hooks over a snapshot of the keys: the
      rows the hooks let through, and the keys of those they cancel. */
  method ScreenRows(handlers: seq<Handler>, rows: seq<Row>, create: bool, prefix: string)
    returns (kept: seq<Row>, dropped: seq<string>)
    ensures var flags := HookFlags(rows, handlers, create, prefix);
      kept == KeptRows(rows, flags) && dropped == CancelledKeys(rows, flags)
  {
    ghost var flags := HookFlags(rows, handlers, create, prefix);
    kept, dropped := [], [];
    for i := 0 to |rows|
      invariant kept == KeptRows(rows[..i], flags[..i])
      invariant dropped == CancelledKeys(rows[..i], flags[..i])
    {
      KeptStep(rows, flags, i);
      var cancel := Fire(handlers, HookArgs(create, rows[i].0, rows[i].1, prefix));
      if CancelledBy(cancel) {
        dropped := dropped + [rows[i].0];
      } else {
        kept := kept + [rows[i]];
      }
    }
    assert rows[..|rows|] == rows && flags[..|rows|] == flags;
  }

  /** For each row, whether the pre-write hooks cancel it. */
  function HookFlags(rows: seq<Row>, handlers: seq<Handler>, create: bool, prefix: string): (flags: seq<bool>)
    ensures |flags| == |rows|
    ensures forall i :: 0 <= i < |rows| ==> flags[i] == HookCancels(handlers, create, rows[i], prefix)
  {
    seq(|rows|, i requires 0 <= i < |rows| => HookCancels(handlers, create, rows[i], prefix))
  }

  /** The rows not flagged, in submission order. */
  function KeptRows(rows: seq<Row>, flags: seq<bool>): seq<Row>
    requires |flags| == |rows|
    decreases |rows|
  {
    if |rows| == 0 then []
    else
      var front := KeptRows(rows[..|rows| - 1], flags[..|rows| - 1]);
      if flags[|rows| - 1] then front else front + [rows[|rows| - 1]]
  }

  /** The keys (as submitted) of the flagged rows, in submission order. */
  function CancelledKeys(rows: seq<Row>, flags: seq<bool>): seq<string>
    requires |flags| == |rows|
    decreases |rows|
  {
    if |rows| == 0 then []
    else
      var front := CancelledKeys(rows[..|rows| - 1], flags[..|rows| - 1]);
      if flags[|rows| - 1] then front + [rows[|rows| - 1].0] else front
  }

  /** The position of the first flag set. */
  function FirstSet(flags: seq<bool>): (r: Option<nat>)
    ensures r.Some? ==> r.value < |flags| && flags[r.value] && (forall i :: 0 <= i < r.value ==> !flags[i])
    ensures r.None? ==> forall i :: 0 <= i < |flags| ==> !flags[i]
    decreases |flags|
  {
    if |flags| == 0 then None
    else if flags[0] then Some(0)
    else
      var r := FirstSet(flags[1..]);
      assert forall i :: 0 <= i < |flags| - 1 ==> flags[1..][i] == flags[i + 1];
      if r.None? then None else Some(r.value + 1)
  }

  /** A flag set after only unset flags is the first one set. */
  lemma FirstSetAt(flags: seq<bool>, i: nat)
    requires i < |flags| && flags[i] && forall k :: 0 <= k < i ==> !flags[k]
    ensures FirstSet(flags) == Some(i)
  {
    var r := FirstSet(flags);
    assert r.Some? && !(r.value < i) && !(i < r.value);
  }

  /** The kept rows and the cancelled keys account for every row: a row is
      kept exactly when it is not flagged, and a key is cancelled only when
      a flagged row carries it. */
  lemma {:induction false} KeptRowsExact(rows: seq<Row>, flags: seq<bool>)
    requires |flags| == |rows|
    ensures |KeptRows(rows, flags)| + |CancelledKeys(rows, flags)| == |rows|
    ensures forall r :: r in KeptRows(rows, flags) ==> exists i :: 0 <= i < |rows| && rows[i] == r && !flags[i]
    ensures forall i :: 0 <= i < |rows| && !flags[i] ==> rows[i] in KeptRows(rows, flags)
    ensures forall k :: k in CancelledKeys(rows, flags) ==> exists i :: 0 <= i < |rows| && rows[i].0 == k && flags[i]
    ensures forall i :: 0 <= i < |rows| && flags[i] ==> rows[i].0 in CancelledKeys(rows, flags)
    decreases |rows|
  {
    if |rows| > 0 {
      var n := |rows| - 1;
      KeptRowsExact(rows[..n], flags[..n]);
      assert forall i :: 0 <= i < n ==> rows[..n][i] == rows[i] && flags[..n][i] == flags[i];
    }
  }

  /** One more row: it is kept or its key is cancelled, as its flag says. */
  lemma KeptStep(rows: seq<Row>, flags: seq<bool>, i: nat)
    requires |flags| == |rows| && i < |rows|
    ensures KeptRows(rows[..i + 1], flags[..i + 1])
      == if flags[i] then KeptRows(rows[..i], flags[..i]) else KeptRows(rows[..i], flags[..i]) + [rows[i]]
    ensures CancelledKeys(rows[..i + 1], flags[..i + 1])
      == if flags[i] then CancelledKeys(rows[..i], flags[..i]) + [rows[i].0] else CancelledKeys(rows[..i], flags[..i])
  {
    assert rows[..i + 1][..i] == rows[..i] && flags[..i + 1][..i] == flags[..i];
  }

  /** When no row is flagged, every row is kept and nothing is cancelled. */
  lemma {:induction false} NothingCancelledKeepsAll(rows: seq<Row>, flags: seq<bool>)
    requires |flags| == |rows| && forall i :: 0 <= i < |rows| ==> !flags[i]
    ensures KeptRows(rows, flags) == rows
    ensures CancelledKeys(rows, flags) == []
    decreases |rows|
  {
    if |rows| > 0 {
      var n := |rows| - 1;
      NothingCancelledKeepsAll(rows[..n], flags[..n]);
      assert rows[..n] + [rows[n]] == rows;
    }
  }

  /** The outcome of the pre-write hooks as written: the first cancelled
      row aborts the request. */
  function HooksAsWritten(rows: seq<Row>, flags: seq<bool>): (r: Res<seq<Row>>)
    requires |flags| == |rows|
  {
    if FirstSet(flags).Some? then Failure(RuntimeError) else Success(rows)
  }

  /** As written, cancelling any row raises instead of dropping that row:
      with one row kept and one cancelled, the intended outcome keeps the
      first row and reports the second, while the code as written raises. */
  lemma CancellingRaises(kept: Row, dropped: Row)
    ensures HooksAsWritten([kept, dropped], [false, true]) == Failure(RuntimeError)
    ensures KeptRows([kept, dropped], [false, true]) == [kept]
    ensures CancelledKeys([kept, dropped], [false, true]) == [dropped.0]
  {
    var rows := [kept, dropped];
    var flags := [false, true];
    assert rows[..1] == [kept] && flags[..1] == [false];
    assert [kept][..0] == [] && [false][..0] == [];
    assert KeptRows([kept], [false]) == [kept];
    assert CancelledKeys([kept], [false]) == [];
    assert FirstSet([true]) == Some(0);
    assert flags[1..] == [true];
    assert FirstSet(flags) == Some(1);
  }

  /** A handler that answers `False` whatever it is given. */
  function Refuse(args: seq<Value>): Value {
    Bool(false)
  }

  /** Under a handler that always answers `False`, every row is cancelled,
      whether created or edited. */
  lemma RefusingHandlerCancelsAll(rows: seq<Row>, create: bool, prefix: string)
    ensures forall i :: 0 <= i < |rows| ==> HookCancels([Refuse], create, rows[i], prefix)
  {
    forall i | 0 <= i < |rows| ensures HookCancels([Refuse], create, rows[i], prefix) {
      var args := HookArgs(create, rows[i].0, rows[i].1, prefix);
      assert [Refuse][..0] == [];
      assert Outcome([Refuse], args) == Bool(false);
    }
  }

  // ---------------------------------------------------------------------
  // Joins

  /** The primary key columns once `_prep_join` has qualified each
      undotted one with the main table's alias. */
  function QualifiedKeys(pkey: seq<string>, alias: string): (r: seq<string>)
    ensures |r| == |pkey|
    ensures forall k :: 0 <= k < |pkey| ==> r[k] == if '.' in pkey[k] then pkey[k] else alias + "." + pkey[k]
  {
    seq(|pkey|, k requires 0 <= k < |pkey| => if '.' in pkey[k] then pkey[k] else alias + "." + pkey[k])
  }

  /** The field check of `_prep_join`: every field's database name must be
      qualified with a table. */
  function FieldsQualified(fs: seq<Field?>): (r: Res<()>)
    reads fs
    ensures r.Success? <==> forall k :: 0 <= k < |fs| ==> fs[k] != null && '.' in fs[k].dbField
    decreases |fs|
  {
    if |fs| == 0 then Success(())
    else if fs[0] == null then Failure(AttributeError)
    else if '.' !in fs[0].dbField then Failure(ValueError)
    else
      var r := FieldsQualified(fs[1..]);
      assert forall k :: 0 <= k < |fs| - 1 ==> fs[1..][k] == fs[k + 1];
      r
  }

  /** After qualification every key column holds a dot, dotted columns are
      left as they are, and qualifying again changes nothing. */
  lemma QualifiedKeysProperties(pkey: seq<string>, alias: string)
    ensures forall k :: 0 <= k < |pkey| ==> '.' in QualifiedKeys(pkey, alias)[k]
    ensures forall k :: 0 <= k < |pkey| && '.' in pkey[k] ==> QualifiedKeys(pkey, alias)[k] == pkey[k]
    ensures QualifiedKeys(QualifiedKeys(pkey, alias), alias) == QualifiedKeys(pkey, alias)
  {
    var q := QualifiedKeys(pkey, alias);
    forall k | 0 <= k < |pkey| ensures '.' in q[k] {
      if '.' !in pkey[k] {
        assert q[k][|alias|] == '.';
      }
    }
  }

  /** The flat object of the key names, as a where condition. */
  function AsConditions(m: map<string, Value>): (r: Record)
    ensures None !in r
    ensures forall c :: c in m <==> Some(c) in r
    ensures forall c :: c in m ==> r[Some(c)] == m[c]
  {
    map c | c in m :: Some(c) := m[c]
  }

  // ---------------------------------------------------------------------
  // Insert and update

  /** The first field, skipping empty slots, that answers to `name`. */
  function FieldFor(fs: seq<Field?>, name: string, kind: string): (r: Field?)
    reads fs
  {
    var i := FirstAnswering(fs, name, kind);
    if i.Some? then fs[i.value] else null
  }

  /** What the write side reads of an editor's configuration besides its
      fields: the key codec, the main tables and the left joins. */
  datatype WriteConfig = WriteConfig(codec: KeyCodec, tables: seq<string>, leftJoins: seq<LeftJoin>)

  /** The value a left join's link column takes from the row id: the id,
      or `None` when there is none. */
  function IdValue(id: Option<string>): Value {
    if id.Some? then Str(id.value) else Null
  }

  /** The conditions `pkey_to_object(id, True)` puts on a main-table write;
      none for a new row. */
  function MainConditions(codec: KeyCodec, id: Option<string>): Res<Option<Record>> {
    if id.None? then Success(None)
    else
      var o :- RowObject(codec, id.value, true, None);
      Success(Some(AsConditions(o)))
  }

  /** `_insert_or_update_table(table, values, where)` for the editor. */
  function EditorTableWrite(cfg: WriteConfig, fs: seq<Field?>, db: Database, table: string, values: Value,
                            where: Option<Record>): Res<(Database, Option<string>)>
    reads fs
  {
    TableWrite(db, fs, |cfg.leftJoins| > 0, cfg.tables, table, values, where)
  }

  /** One main table in `_insert_or_update`: the first key a write answers
      becomes the id, so the tables after it are updated on that key. */
  function TableStep(cfg: WriteConfig, fs: seq<Field?>, db: Database, id: Option<string>, table: string,
                     values: Value): Res<(Database, Option<string>)>
    reads fs
  {
    var where :- MainConditions(cfg.codec, id);
    var w :- EditorTableWrite(cfg, fs, db, table, values, where);
    Success((w.0, if w.1.Some? && id.None? then w.1 else id))
  }

  /** The id a write answers, or its error. */
  function Answer(w: Res<(Database, Option<string>)>): Res<Option<string>> {
    if w.Success? then Success(w.value.1) else Failure(w.error)
  }

  /** Nothing, or the error of a write. */
  function Done(w: Res<Database>): Res<()> {
    if w.Success? then Success(()) else Failure(w.error)
  }

  /** The main-table loop of `_insert_or_update` over `ts`, from the store
      `db` and the id so far. */
  function TablesPass(cfg: WriteConfig, fs: seq<Field?>, db: Database, id: Option<string>, ts: seq<string>,
                      values: Value): Res<(Database, Option<string>)>
    reads fs
    decreases |ts|
  {
    if |ts| == 0 then Success((db, id))
    else
      var after :- TableStep(cfg, fs, db, id, ts[0], values);
      TablesPass(cfg, fs, after.0, after.1, ts[1..], values)
  }

  /** The link value of a left join whose parent side is not the single key
      column: the set value of the parent's field when it applies to an
      edit, else that of the child's field when it does; `None` when neither
      does. */
  function LinkValue(fs: seq<Field?>, roles: Roles, values: Value): Res<Option<Value>>
    reads fs
  {
    var parent := FieldFor(fs, roles.parent, "db");
    var parentApplies :- if parent == null then Success(false) else parent.Apply("edit", values);
    if parentApplies then
      var v :- parent.Val("set", values);
      Success(Some(v))
    else
      var child := FieldFor(fs, roles.child, "db");
      var childApplies :- if child == null then Success(false) else child.Apply("edit", values);
      if childApplies then
        var v :- child.Val("set", values);
        Success(Some(v))
      else Success(None)
  }

  /** The link value of a left join in `_insert_or_update`: the row id when
      the parent side is the single key column; an empty key has no first
      column. */
  function JoinLink(cfg: WriteConfig, fs: seq<Field?>, id: Option<string>, roles: Roles, values: Value): Res<Option<Value>>
    reads fs
  {
    if |cfg.codec.pkey| == 0 then Failure(IndexError)
    else if roles.parent == cfg.codec.pkey[0] && |cfg.codec.pkey| == 1 then Success(Some(IdValue(id)))
    else LinkValue(fs, roles, values)
  }

  /** One left join in `_insert_or_update`: the joined table is written
      with the condition that its child link column holds the link value; a
      join without a link value is skipped. */
  function JoinStep(cfg: WriteConfig, fs: seq<Field?>, db: Database, id: Option<string>, j: LeftJoin,
                    values: Value): Res<Database>
    reads fs
  {
    var roles := WriteRoles(j);
    var link :- JoinLink(cfg, fs, id, roles, values);
    if link.None? then Success(db)
    else
      var w :- EditorTableWrite(cfg, fs, db, j.table, values, Some(map[Part(roles.child, "column") := link.value]));
      Success(w.0)
  }

  /** The left-join loop of `_insert_or_update` over `js`. */
  function JoinsPass(cfg: WriteConfig, fs: seq<Field?>, db: Database, id: Option<string>, js: seq<LeftJoin>,
                     values: Value): Res<Database>
    reads fs
    decreases |js|
  {
    if |js| == 0 then Success(db)
    else
      var after :- JoinStep(cfg, fs, db, id, js[0], values);
      JoinsPass(cfg, fs, after, id, js[1..], values)
  }

  lemma TablesPassUnfold(cfg: WriteConfig, fs: seq<Field?>, db: Database, id: Option<string>, ts: seq<string>, values: Value)
    requires |ts| > 0
    ensures var t := TableStep(cfg, fs, db, id, ts[0], values);
      (t.Failure? ==> TablesPass(cfg, fs, db, id, ts, values) == Failure(t.error))
      && (t.Success? ==> TablesPass(cfg, fs, db, id, ts, values) == TablesPass(cfg, fs, t.value.0, t.value.1, ts[1..], values))
  {
  }

  lemma JoinsPassUnfold(cfg: WriteConfig, fs: seq<Field?>, db: Database, id: Option<string>, js: seq<LeftJoin>, values: Value)
    requires |js| > 0
    ensures var t := JoinStep(cfg, fs, db, id, js[0], values);
      (t.Failure? ==> JoinsPass(cfg, fs, db, id, js, values) == Failure(t.error))
      && (t.Success? ==> JoinsPass(cfg, fs, db, id, js, values) == JoinsPass(cfg, fs, t.value, id, js[1..], values))
  {
  }

  /** What `_insert_or_update(id, values)` leaves in the store and answers:
      the main tables are written first, then the left-joined ones. */
  function Written(cfg: WriteConfig, fs: seq<Field?>, db: Database, id: Option<string>, values: Value): Res<(Database, Option<string>)>
    reads fs
  {
    var t :- TablesPass(cfg, fs, db, id, cfg.tables, values);
    var d :- JoinsPass(cfg, fs, t.0, t.1, cfg.leftJoins, values);
    Success((d, t.1))
  }

  /** One main table of an edit: it is updated on the conditions of the id,
      so no record is added and no key generated, and the id is kept. */
  lemma TableStepEdit(cfg: WriteConfig, fs: seq<Field?>, db: Database, id: string, table: string, values: Value)
    requires table in cfg.tables
    requires TableStep(cfg, fs, db, Some(id), table, values).Success?
    ensures var after := TableStep(cfg, fs, db, Some(id), table, values).value;
      after.1 == Some(id) && after.0.nextKey == db.nextKey
      && forall t :: |RowsOf(after.0, t)| == |RowsOf(db, t)|
  {
    var where := MainConditions(cfg.codec, Some(id)).value;
    var w := EditorTableWrite(cfg, fs, db, table, values, where).value;
    var changes := WriteSet(fs, Alias(table, "alias"), |cfg.leftJoins| > 0, "edit", values).value;
    if |changes| > 0 {
      MainUpdateKeepsCounts(db, table, changes, where.value);
    }
    assert w.1.None? && w.0.nextKey == db.nextKey && forall t :: |RowsOf(w.0, t)| == |RowsOf(db, t)|;
  }

  /** An edit never inserts into a main table: every main table is updated
      on the conditions of the id, the id is kept, no key is generated and
      every table keeps its number of records. */
  lemma {:induction false} EditKeepsRowCounts(cfg: WriteConfig, fs: seq<Field?>, db: Database, id: string,
                                              ts: seq<string>, values: Value)
    requires forall k :: 0 <= k < |ts| ==> ts[k] in cfg.tables
    requires TablesPass(cfg, fs, db, Some(id), ts, values).Success?
    ensures var after := TablesPass(cfg, fs, db, Some(id), ts, values).value;
      after.1 == Some(id) && after.0.nextKey == db.nextKey
      && forall t :: |RowsOf(after.0, t)| == |RowsOf(db, t)|
    decreases |ts|
  {
    if |ts| > 0 {
      TableStepEdit(cfg, fs, db, id, ts[0], values);
      var step := TableStep(cfg, fs, db, Some(id), ts[0], values).value;
      EditKeepsRowCounts(cfg, fs, step.0, id, ts[1..], values);
    }
  }

  /** One main table of a create: an empty write set writes nothing;
      otherwise the write set is appended as a new record and the generated
      key is answered. */
  lemma TableStepCreate(cfg: WriteConfig, fs: seq<Field?>, db: Database, table: string, values: Value)
    requires table in cfg.tables
    requires TableStep(cfg, fs, db, None, table, values).Success?
    ensures var after := TableStep(cfg, fs, db, None, table, values).value;
      var changes := WriteSet(fs, Alias(table, "alias"), |cfg.leftJoins| > 0, "create", values);
      changes.Success?
      && (after.1.None? <==> |changes.value| == 0)
      && (after.1.None? ==> after.0 == db)
      && (after.1.Some? ==>
            (after.1.value == IntToStr(db.nextKey) && after.0.nextKey == db.nextKey + 1
             && RowsOf(after.0, table) == RowsOf(db, table) + [KeyedRecord(db, changes.value)]))
  {
    var changes := WriteSet(fs, Alias(table, "alias"), |cfg.leftJoins| > 0, "create", values).value;
    if |changes| > 0 {
      UpsertEffect(db, table, true, changes, None);
    }
  }

  /** A create answers the key the store generates for the first main
      table that receives a record; the tables before it are left as they
      were, and the tables after it are updated on that key. */
  lemma {:induction false} CreateAnswersFirstKey(cfg: WriteConfig, fs: seq<Field?>, db: Database, ts: seq<string>, values: Value)
    requires forall k :: 0 <= k < |ts| ==> ts[k] in cfg.tables
    requires TablesPass(cfg, fs, db, None, ts, values).Success?
    ensures var after := TablesPass(cfg, fs, db, None, ts, values).value;
      (after.1.None? ==> after.0 == db)
      && (after.1.Some? ==> after.1.value == IntToStr(db.nextKey) && after.0.nextKey == db.nextKey + 1)
    decreases |ts|
  {
    if |ts| > 0 {
      TableStepCreate(cfg, fs, db, ts[0], values);
      var step := TableStep(cfg, fs, db, None, ts[0], values).value;
      if step.1.None? {
        CreateAnswersFirstKey(cfg, fs, step.0, ts[1..], values);
      } else {
        EditKeepsRowCounts(cfg, fs, step.0, step.1.value, ts[1..], values);
      }
    }
  }

  /** Whether the field of `name` offers no link value: there is none, or
      it does not apply to an edit. */
  predicate NoLinkFrom(fs: seq<Field?>, name: string, values: Value)
    reads fs
  {
    var f := FieldFor(fs, name, "db");
    f == null || f.Apply("edit", values) == Success(false)
  }

  /** A left join whose parent side is not the single key column is
      skipped, writing nothing, exactly when neither link side has a field
      that applies to an edit. */
  lemma JoinSkippedWithoutLink(cfg: WriteConfig, fs: seq<Field?>, db: Database, id: Option<string>, j: LeftJoin, values: Value)
    requires |cfg.codec.pkey| > 0
    requires !(WriteRoles(j).parent == cfg.codec.pkey[0] && |cfg.codec.pkey| == 1)
    ensures JoinLink(cfg, fs, id, WriteRoles(j), values) == Success(None) <==>
      NoLinkFrom(fs, WriteRoles(j).parent, values) && NoLinkFrom(fs, WriteRoles(j).child, values)
    ensures NoLinkFrom(fs, WriteRoles(j).parent, values) && NoLinkFrom(fs, WriteRoles(j).child, values) ==>
      JoinStep(cfg, fs, db, id, j, values) == Success(db)
  {
  }

  /** A left join whose parent side is the single key column links on the
      row id, `None` before any id exists. */
  lemma JoinOnKeyLinksId(cfg: WriteConfig, fs: seq<Field?>, id: Option<string>, j: LeftJoin, values: Value)
    requires cfg.codec.pkey == [WriteRoles(j).parent]
    ensures JoinLink(cfg, fs, id, WriteRoles(j), values) == Success(Some(if id.Some? then Str(id.value) else Null))
  {
  }

  /** A left join with a link value but an empty write set writes
      nothing. */
  lemma JoinEmptyWriteSetSkips(cfg: WriteConfig, fs: seq<Field?>, db: Database, id: Option<string>, j: LeftJoin,
                               values: Value, v: Value)
    requires JoinLink(cfg, fs, id, WriteRoles(j), values) == Success(Some(v))
    requires WriteSet(fs, Alias(j.table, "alias"), |cfg.leftJoins| > 0, "edit", values) == Success(map[])
    ensures JoinStep(cfg, fs, db, id, j, values) == Success(db)
  {
  }

  /** A left join with a link value and something to write raises when its
      child link column cannot be named. */
  lemma JoinUnnamedColumnRaises(cfg: WriteConfig, fs: seq<Field?>, db: Database, id: Option<string>, j: LeftJoin,
                                values: Value, v: Value)
    requires JoinLink(cfg, fs, id, WriteRoles(j), values) == Success(Some(v))
    requires Part(WriteRoles(j).child, "column").None?
    requires var changes := WriteSet(fs, Alias(j.table, "alias"), |cfg.leftJoins| > 0, "edit", values);
      changes.Success? && |changes.value| > 0
    ensures JoinStep(cfg, fs, db, id, j, values) == Failure(TypeError)
  {
  }

  /** A left join with a link value and something to write writes its table
      on the condition that the child link column holds the link value: the
      matching records are updated, or, when none matches, the write set and
      the condition are inserted together, after which a record matches. */
  lemma JoinWritesLinkedRow(cfg: WriteConfig, fs: seq<Field?>, db: Database, id: Option<string>, j: LeftJoin,
                            values: Value, v: Value, changes: Record)
    requires JoinLink(cfg, fs, id, WriteRoles(j), values) == Success(Some(v))
    requires j.table !in cfg.tables
    requires WriteSet(fs, Alias(j.table, "alias"), |cfg.leftJoins| > 0, "edit", values) == Success(changes)
    requires |changes| > 0 && Part(WriteRoles(j).child, "column").Some?
    ensures var where := map[Part(WriteRoles(j).child, "column") := v];
      var rows := RowsOf(db, j.table);
      JoinStep(cfg, fs, db, id, j, values).Success?
      && var db2 := JoinStep(cfg, fs, db, id, j, values).value;
      (forall t :: t != j.table ==> RowsOf(db2, t) == RowsOf(db, t))
      && db2.nextKey == db.nextKey
      && (AnyMatch(rows, where) ==> RowsOf(db2, j.table) == UpdateRows(rows, changes, where))
      && (!AnyMatch(rows, where) ==>
            RowsOf(db2, j.table) == rows + [changes + where] && AnyMatch(RowsOf(db2, j.table), where))
  {
    var where := map[Part(WriteRoles(j).child, "column") := v];
    PartsRebuildName(WriteRoles(j).child);
    LinkedUpsertEffect(db, j.table, changes, where);
    assert JoinStep(cfg, fs, db, id, j, values) == Success(Upsert(db, j.table, false, changes, Some(where)).value.0);
  }

  /** A left join never generates a key. */
  lemma JoinStepKeepsKeyCounter(cfg: WriteConfig, fs: seq<Field?>, db: Database, id: Option<string>, j: LeftJoin, values: Value)
    requires JoinStep(cfg, fs, db, id, j, values).Success?
    ensures JoinStep(cfg, fs, db, id, j, values).value.nextKey == db.nextKey
  {
    var link := JoinLink(cfg, fs, id, WriteRoles(j), values).value;
    if link.Some? {
      var where := map[Part(WriteRoles(j).child, "column") := link.value];
      var changes := WriteSet(fs, Alias(j.table, "alias"), |cfg.leftJoins| > 0, "edit", values).value;
      if |changes| > 0 {
        UpsertEffect(db, j.table, j.table in cfg.tables, changes, Some(where));
      }
    }
  }

  /** The left joins never generate a key. */
  lemma {:induction false} JoinsKeepKeyCounter(cfg: WriteConfig, fs: seq<Field?>, db: Database, id: Option<string>,
                                               js: seq<LeftJoin>, values: Value)
    requires JoinsPass(cfg, fs, db, id, js, values).Success?
    ensures JoinsPass(cfg, fs, db, id, js, values).value.nextKey == db.nextKey
    decreases |js|
  {
    if |js| > 0 {
      JoinStepKeepsKeyCounter(cfg, fs, db, id, js[0], values);
      JoinsKeepKeyCounter(cfg, fs, JoinStep(cfg, fs, db, id, js[0], values).value, id, js[1..], values);
    }
  }

  /** `_insert_or_update` with an id answers that id and generates no key;
      without one it answers the key generated for the first main table
      that receives a record, or nothing when no main table does. */
  lemma WrittenKey(cfg: WriteConfig, fs: seq<Field?>, db: Database, id: Option<string>, values: Value)
    requires Written(cfg, fs, db, id, values).Success?
    ensures var w := Written(cfg, fs, db, id, values).value;
      (id.Some? ==> w.1 == id && w.0.nextKey == db.nextKey)
      && (id.None? && w.1.Some? ==> w.1.value == IntToStr(db.nextKey) && w.0.nextKey == db.nextKey + 1)
      && (id.None? && w.1.None? ==> w.0.nextKey == db.nextKey)
  {
    var t := TablesPass(cfg, fs, db, id, cfg.tables, values).value;
    if id.Some? {
      EditKeepsRowCounts(cfg, fs, db, id.value, cfg.tables, values);
    } else {
      CreateAnswersFirstKey(cfg, fs, db, cfg.tables, values);
    }
    JoinsKeepKeyCounter(cfg, fs, t.0, t.1, cfg.leftJoins, values);
  }

  /** The values `_insert` gathers to build the new id: every field's set
      value that is not `None`, written at the field's name. */
  function InsertValues(fs: seq<Field?>, values: Value): Res<map<string, Value>>
    reads fs
    decreases |fs|
  {
    if |fs| == 0 then Success(map[])
    else
      var before :- InsertValues(fs[..|fs| - 1], values);
      InsertValue(before, fs[|fs| - 1], values)
  }

  function InsertValue(before: map<string, Value>, f: Field?, values: Value): Res<map<string, Value>>
    reads f
  {
    if f == null then Failure(AttributeError)
    else
      var v :- f.Val("set", values);
      if v.Null? then Success(before) else Write(before, f.name, v)
  }

  lemma InsertValuesStep(fs: seq<Field?>, values: Value, i: nat, before: map<string, Value>)
    requires i < |fs| && InsertValues(fs[..i], values) == Success(before)
    ensures InsertValues(fs[..i + 1], values) == InsertValue(before, fs[i], values)
  {
    assert fs[..i + 1][..i] == fs[..i];
  }

  lemma {:induction false} InsertValuesPrefixFailure(fs: seq<Field?>, values: Value, k: nat)
    requires k <= |fs| && InsertValues(fs[..k], values).Failure?
    ensures InsertValues(fs, values) == InsertValues(fs[..k], values)
    decreases |fs| - k
  {
    if k == |fs| {
      assert fs[..k] == fs;
    } else {
      var n := |fs| - 1;
      assert fs[..n][..k] == fs[..k];
      InsertValuesPrefixFailure(fs[..n], values, k);
    }
  }

  /** The field loop of `_insert_or_update_table`. */
  method CollectWriteSet(fs: seq<Field?>, tableAlias: string, joined: bool, action: string, values: Value) returns (r: Res<Record>)
    ensures r == WriteSet(fs, tableAlias, joined, action, values)
  {
    WriteSetFromPrefix(fs, tableAlias, joined, action, values, 0, map[]);
    var changes: Record, rest := map[], fs;
    while |rest| > 0
      invariant WriteSetFrom(changes, rest, tableAlias, joined, action, values) == WriteSet(fs, tableAlias, joined, action, values)
    {
      var next := CollectField(changes, rest[0], tableAlias, joined, action, values);
      if next.Failure? {
        return next;
      }
      changes, rest := next.value, rest[1..];
    }
    return Success(changes);
  }

  /** `_find_field(name, type)` over the fields `fs`: the first field
      answering to the name, skipping empty slots. */
  method FirstField(fs: seq<Field?>, name: string, kind: string) returns (r: Field?)
    ensures r == FieldFor(fs, name, kind)
    ensures r != null ==> AnswersTo(r, name, kind)
  {
    for i := 0 to |fs|
      invariant forall k :: 0 <= k < i && fs[k] != null ==> !AnswersTo(fs[k], name, kind)
    {
      if fs[i] != null && AnswersTo(fs[i], name, kind) {
        return fs[i];
      }
    }
    return null;
  }

  /** `_insert_or_update(id, values)` on a store value: the main tables,
      then the left-joined ones. */
  method WriteStore(cfg: WriteConfig, fs: seq<Field?>, db: Database, id: Option<string>, values: Value)
    returns (r: Res<(Database, Option<string>)>)
    ensures r == Written(cfg, fs, db, id, values)
  {
    var t :- WriteMainTables(cfg, fs, db, id, cfg.tables, values);
    var d :- WriteJoins(cfg, fs, t.0, t.1, cfg.leftJoins, values);
    return Success((d, t.1));
  }

  /** The main-table loop of `_insert_or_update` on a store value. */
  method WriteMainTables(cfg: WriteConfig, fs: seq<Field?>, db: Database, id: Option<string>, ts: seq<string>,
                         values: Value) returns (r: Res<(Database, Option<string>)>)
    ensures r == TablesPass(cfg, fs, db, id, ts, values)
  {
    var cur, key, rest := db, id, ts;
    while |rest| > 0
      invariant TablesPass(cfg, fs, cur, key, rest, values) == TablesPass(cfg, fs, db, id, ts, values)
    {
      var step := WriteMainTable(cfg, fs, cur, key, rest[0], values);
      if step.Failure? {
        return step;
      }
      cur, key, rest := step.value.0, step.value.1, rest[1..];
    }
    return Success((cur, key));
  }

  /** One main table of `_insert_or_update`: the conditions on the row id,
      then `_insert_or_update_table`; the first key a write answers becomes
      the id. */
  method WriteMainTable(cfg: WriteConfig, fs: seq<Field?>, db: Database, id: Option<string>, table: string,
                        values: Value) returns (r: Res<(Database, Option<string>)>)
    ensures r == TableStep(cfg, fs, db, id, table, values)
  {
    var where: Option<Record> := None;
    if id.Some? {
      var o :- KeyToObject(cfg.codec, id.value, true, None);
      where := Some(AsConditions(o));
    }
    var w :- WriteTable(db, fs, |cfg.leftJoins| > 0, cfg.tables, table, values, where);
    return Success((w.0, if w.1.Some? && id.None? then w.1 else id));
  }

  /** The left-join loop of `_insert_or_update` on a store value. */
  method WriteJoins(cfg: WriteConfig, fs: seq<Field?>, db: Database, id: Option<string>, js: seq<LeftJoin>,
                    values: Value) returns (r: Res<Database>)
    ensures r == JoinsPass(cfg, fs, db, id, js, values)
  {
    var cur, rest := db, js;
    while |rest| > 0
      invariant JoinsPass(cfg, fs, cur, id, rest, values) == JoinsPass(cfg, fs, db, id, js, values)
    {
      var step := WriteJoin(cfg, fs, cur, id, rest[0], values);
      if step.Failure? {
        return step;
      }
      cur, rest := step.value, rest[1..];
    }
    return Success(cur);
  }

  /** One left join of `_insert_or_update`: its link value, then
      `_insert_or_update_table` on the condition that the child link column
      holds it. */
  method WriteJoin(cfg: WriteConfig, fs: seq<Field?>, db: Database, id: Option<string>, j: LeftJoin,
                   values: Value) returns (r: Res<Database>)
    ensures r == JoinStep(cfg, fs, db, id, j, values)
  {
    var roles := WriteRoles(j);
    var link :- FindJoinLink(cfg, fs, id, roles, values);
    if link.None? {
      return Success(db);
    }
    var w :- WriteTable(db, fs, |cfg.leftJoins| > 0, cfg.tables, j.table, values,
                        Some(map[Part(roles.child, "column") := link.value]));
    return Success(w.0);
  }

  /** The link value of one left join in `_insert_or_update`. */
  method FindJoinLink(cfg: WriteConfig, fs: seq<Field?>, id: Option<string>, roles: Roles, values: Value)
    returns (r: Res<Option<Value>>)
    ensures r == JoinLink(cfg, fs, id, roles, values)
  {
    if |cfg.codec.pkey| == 0 {
      return Failure(IndexError);
    }
    if roles.parent == cfg.codec.pkey[0] && |cfg.codec.pkey| == 1 {
      return Success(Some(IdValue(id)));
    }
    r := FindLink(fs, roles, values);
  }

  /** The link-value lookup of `_insert_or_update`: the parent side's
      field, else the child side's, when it applies to an edit. */
  method FindLink(fs: seq<Field?>, roles: Roles, values: Value) returns (r: Res<Option<Value>>)
    ensures r == LinkValue(fs, roles, values)
  {
    var field := FirstField(fs, roles.parent, "db");
    if field != null {
      var applies :- field.Apply("edit", values);
      if applies {
        var v :- field.Val("set", values);
        return Success(Some(v));
      }
    }
    field := FirstField(fs, roles.child, "db");
    if field != null {
      var applies :- field.Apply("edit", values);
      if applies {
        var v :- field.Val("set", values);
        return Success(Some(v));
      }
    }
    return Success(None);
  }

  /** The body of `_insert_or_update_table` on a store value: the write
      set, then the insert or update it calls for. */
  method WriteTable(db: Database, fs: seq<Field?>, joined: bool, mainTables: seq<string>,
                    table: string, values: Value, where: Option<Record>) returns (r: Res<(Database, Option<string>)>)
    ensures r == TableWrite(db, fs, joined, mainTables, table, values, where)
  {
    var action := if where.None? then "create" else "edit";
    var changes :- CollectWriteSet(fs, Alias(table, "alias"), joined, action, values);
    if |changes| == 0 {
      return Success((db, None));
    }
    r := Upsert(db, table, table in mainTables, changes, where);
  }

  /** One field of the write-set loop of `_insert_or_update_table`. */
  method CollectField(changes: Record, f: Field?, tableAlias: string, joined: bool, action: string, values: Value)
    returns (r: Res<Record>)
    ensures r == WriteField(changes, f, tableAlias, joined, action, values)
  {
    if f == null {
      return Failure(AttributeError);
    }
    var routed :- Routed(f, tableAlias, joined, action, values);
    if !routed {
      return Success(changes);
    }
    var v :- f.Val("set", values);
    return Success(changes[NameParts(f.dbField).column := v]);
  }

  /** The loop of `_insert` gathering the values. */
  method GatherInsertValues(fs: seq<Field?>, values: Value) returns (r: Res<map<string, Value>>)
    ensures r == InsertValues(fs, values)
  {
    InsertValuesFrom(fs, values, 0, map[]);
    var all: map<string, Value>, rest := map[], fs;
    while |rest| > 0
      invariant InsertFrom(all, rest, values) == InsertValues(fs, values)
    {
      var next := GatherField(all, rest[0], values);
      if next.Failure? {
        return next;
      }
      all, rest := next.value, rest[1..];
    }
    return Success(all);
  }

  /** The values gathered from `acc` on, field after field. */
  function InsertFrom(acc: map<string, Value>, fs: seq<Field?>, values: Value): Res<map<string, Value>>
    reads fs
    decreases |fs|
  {
    if |fs| == 0 then Success(acc)
    else
      var next :- InsertValue(acc, fs[0], values);
      InsertFrom(next, fs[1..], values)
  }

  /** Gathering the rest of the fields from the values of a prefix gives
      the values of all of them. */
  lemma {:induction false} InsertValuesFrom(fs: seq<Field?>, values: Value, i: nat, acc: map<string, Value>)
    requires i <= |fs| && InsertValues(fs[..i], values) == Success(acc)
    ensures InsertFrom(acc, fs[i..], values) == InsertValues(fs, values)
    decreases |fs| - i
  {
    if i == |fs| {
      assert fs[..i] == fs;
    } else {
      InsertValuesStep(fs, values, i, acc);
      assert fs[i..][1..] == fs[i + 1..];
      var next := InsertValue(acc, fs[i], values);
      if next.Failure? {
        InsertValuesPrefixFailure(fs, values, i + 1);
      } else {
        InsertValuesFrom(fs, values, i + 1, next.value);
      }
    }
  }

  /** One field of that loop. */
  method GatherField(all: map<string, Value>, f: Field?, values: Value) returns (r: Res<map<string, Value>>)
    ensures r == InsertValue(all, f, values)
  {
    if f == null {
      return Failure(AttributeError);
    }
    var v :- f.Val("set", values);
    if v.Null? {
      return Success(all);
    }
    r := WriteProp(all, f.name, v);
  }

  /** With plain field names, the gathered values are exactly the set
      values that are not `None`, each under its field's name, the last
      field of a name winning. */
  lemma InsertValuesHoldSetValues(fs: seq<Field?>, values: Value)
    requires forall k :: 0 <= k < |fs| ==> fs[k] != null && !Contains(fs[k].name, ".")
    requires InsertValues(fs, values).Success?
    ensures forall k :: 0 <= k < |fs| ==> fs[k].Val("set", values).Success?
    ensures var all := InsertValues(fs, values).value;
      forall name :: name in all ==>
        exists k :: (0 <= k < |fs| && fs[k].name == name && all[name] == fs[k].Val("set", values).value
          && !all[name].Null?)
    ensures var all := InsertValues(fs, values).value;
      forall k :: (0 <= k < |fs| && !fs[k].Val("set", values).value.Null?
        && (forall m :: k < m < |fs| ==> fs[m].name != fs[k].name)) ==>
      fs[k].name in all && all[fs[k].name] == fs[k].Val("set", values).value
  {
    InsertValuesSucceedEach(fs, values);
    InsertValuesKeysFromFields(fs, values);
    InsertValuesLastWins(fs, values);
  }

  lemma {:induction false} InsertValuesSucceedEach(fs: seq<Field?>, values: Value)
    requires forall k :: 0 <= k < |fs| ==> fs[k] != null
    requires InsertValues(fs, values).Success?
    ensures forall k :: 0 <= k < |fs| ==> fs[k].Val("set", values).Success?
    decreases |fs|
  {
    if |fs| > 0 {
      var n := |fs| - 1;
      InsertValuesSucceedEach(fs[..n], values);
      assert forall k :: 0 <= k < n ==> fs[..n][k] == fs[k];
    }
  }

  lemma {:induction false} InsertValuesKeysFromFields(fs: seq<Field?>, values: Value)
    requires forall k :: 0 <= k < |fs| ==> fs[k] != null && !Contains(fs[k].name, ".")
    requires InsertValues(fs, values).Success?
    ensures var all := InsertValues(fs, values).value;
      forall name :: name in all ==>
        exists k :: (0 <= k < |fs| && fs[k].name == name && fs[k].Val("set", values) == Success(all[name])
          && !all[name].Null?)
    decreases |fs|
  {
    if |fs| > 0 {
      var n := |fs| - 1;
      var front := fs[..n];
      InsertValuesKeysFromFields(front, values);
      var before := InsertValues(front, values).value;
      var all := InsertValues(fs, values).value;
      var v := fs[n].Val("set", values).value;
      forall name | name in all
        ensures exists k :: (0 <= k < |fs| && fs[k].name == name && fs[k].Val("set", values) == Success(all[name])
          && !all[name].Null?)
      {
        if v.Null? || name != fs[n].name {
          var k :| 0 <= k < n && front[k].name == name && front[k].Val("set", values) == Success(before[name])
            && !before[name].Null?;
          assert fs[k] == front[k];
        }
      }
    }
  }

  lemma {:induction false} InsertValuesLastWins(fs: seq<Field?>, values: Value)
    requires forall k :: 0 <= k < |fs| ==> fs[k] != null && !Contains(fs[k].name, ".")
    requires forall k :: 0 <= k < |fs| ==> fs[k].Val("set", values).Success?
    requires InsertValues(fs, values).Success?
    ensures var all := InsertValues(fs, values).value;
      forall k :: (0 <= k < |fs| && !fs[k].Val("set", values).value.Null?
        && (forall m :: k < m < |fs| ==> fs[m].name != fs[k].name)) ==>
      fs[k].name in all && all[fs[k].name] == fs[k].Val("set", values).value
    decreases |fs|
  {
    if |fs| > 0 {
      var n := |fs| - 1;
      assert forall k :: 0 <= k < n ==> fs[..n][k] == fs[k];
      InsertValuesLastWins(fs[..n], values);
    }
  }

  // ---------------------------------------------------------------------
  // The editor

  class Editor {
    var pkey: seq<string>
    var tables: seq<string>
    var idPrefix: string
    var leftJoins: seq<LeftJoin>
    var fields: seq<Field?>
    var doValidate: bool
    var leftJoinRemove: bool
    var events: map<string, seq<Handler>>
    var cancelled: seq<string>
    var fieldErrors: seq<FieldError>
    var removals: seq<Removal>
    var db: Database
    /** The checksum behind the key separator (`zlib.crc32`). */
    const crc: string -> nat

    /** `Editor(db, table, pkey)`. */
    constructor (db: Database, crc: string -> nat, table: Option<NameArg>, pkey: Option<NameArg>)
      ensures this.tables == if table.None? then [] else AddedNames([], table.value)
      ensures this.pkey == if pkey.None? then ["id"] else NamesOf(pkey.value)
      ensures idPrefix == "row_" && leftJoins == [] && fields == [] && doValidate && !leftJoinRemove
      ensures events == map[] && cancelled == [] && fieldErrors == [] && removals == []
      ensures this.db == db && this.crc == crc
    {
      this.pkey := ["id"];
      this.tables := [];
      idPrefix := "row_";
      leftJoins := [];
      fields := [];
      doValidate := true;
      leftJoinRemove := false;
      events := map[];
      cancelled := [];
      fieldErrors := [];
      removals := [];
      this.db := db;
      this.crc := crc;
      new;
      if table.Some? {
        var _ := Table(table);
      }
      if pkey.Some? {
        var _ := Pkey(pkey);
      }
    }

    /** The key codec of this editor. */
    function Codec(): KeyCodec
      reads this`pkey, this`idPrefix
    {
      KeyCodec(pkey, idPrefix, crc)
    }

    // -------------------------------------------------------------------
    // Configuration

    /** `pkey(pkey)`: with no argument the current key columns; a string
        becomes a one-column key. */
    method Pkey(arg: Option<NameArg>) returns (current: Option<seq<string>>)
      modifies this`pkey
      ensures arg.None? ==> current == Some(pkey) && pkey == old(pkey)
      ensures arg.Some? ==> current.None? && pkey == NamesOf(arg.value)
    {
      if arg.None? {
        return Some(pkey);
      }
      pkey := NamesOf(arg.value);
      return None;
    }

    /** `table(table)`: with no argument, or an empty one, the current
        tables; otherwise the names are appended. */
    method Table(arg: Option<NameArg>) returns (current: Option<seq<string>>)
      modifies this`tables
      ensures arg.None? || Empty(arg.value) ==> current == Some(tables) && tables == old(tables)
      ensures arg.Some? && !Empty(arg.value) ==> current.None? && tables == AddedNames(old(tables), arg.value)
    {
      if arg.None? || Empty(arg.value) {
        return Some(tables);
      }
      tables := tables + NamesOf(arg.value);
      return None;
    }

    /** `id_prefix(id)`. */
    method IdPrefix(arg: Option<string>) returns (current: Option<string>)
      modifies this`idPrefix
      ensures arg.None? ==> current == Some(idPrefix) && idPrefix == old(idPrefix)
      ensures arg.Some? ==> current.None? && idPrefix == arg.value
    {
      if arg.None? {
        return Some(idPrefix);
      }
      idPrefix := arg.value;
      return None;
    }

    /** `do_validate(flag)`. */
    method DoValidate(flag: Option<bool>) returns (current: Option<bool>)
      modifies this`doValidate
      ensures flag.None? ==> current == Some(doValidate) && doValidate == old(doValidate)
      ensures flag.Some? ==> current.None? && doValidate == flag.value
    {
      if flag.None? {
        return Some(doValidate);
      }
      doValidate := flag.value;
      return None;
    }

    /** `left_join_remove(remove)`: a false argument reads the flag instead
        of clearing it, so once set the flag stays set. */
    method LeftJoinRemove(remove: Option<bool>) returns (current: Option<bool>)
      modifies this`leftJoinRemove
      ensures remove != Some(true) ==> current == Some(leftJoinRemove) && leftJoinRemove == old(leftJoinRemove)
      ensures remove == Some(true) ==> current.None? && leftJoinRemove
      ensures old(leftJoinRemove) ==> leftJoinRemove
    {
      if remove != Some(true) {
        return Some(leftJoinRemove);
      }
      leftJoinRemove := true;
      return None;
    }

    /** `left_join(table, field1, operator, field2)`. */
    method AddLeftJoin(table: string, field1: string, operator: string, field2: string)
      modifies this`leftJoins
      ensures leftJoins == old(leftJoins) + [Names.LeftJoin(table, field1, operator, field2)]
    {
      leftJoins := leftJoins + [Names.LeftJoin(table, field1, operator, field2)];
    }

    /** `field(field)` with a field (or `None`): appends it. */
    method AddField(f: Field?)
      modifies this`fields
      ensures fields == old(fields) + [f]
    {
      fields := fields + [f];
    }

    /** `field(name)`: the first field of that name, or an error. */
    method FieldNamed(name: string) returns (r: Res<Field>)
      ensures NamedPosition(fields, name).Failure? ==> r == Failure(AttributeError)
      ensures NamedPosition(fields, name) == Success(None) ==> r == Failure(Raised("Unknown field: " + name))
      ensures NamedPosition(fields, name).Success? && NamedPosition(fields, name).value.Some? ==>
        r == Success(fields[NamedPosition(fields, name).value.value])
    {
      for i := 0 to |fields|
        invariant forall k :: 0 <= k < i ==> fields[k] != null && fields[k].name != name
      {
        if fields[i] == null {
          return Failure(AttributeError);
        }
        if fields[i].name == name {
          return Success(fields[i]);
        }
      }
      return Failure(Raised("Unknown field: " + name));
    }

    /** `fields(fields)`: with no argument, or an empty list, the current
        fields; otherwise the fields are appended. */
    method FieldList(arg: Option<seq<Field?>>) returns (current: Option<seq<Field?>>)
      modifies this`fields
      ensures arg.None? || arg == Some([]) ==> current == Some(fields) && fields == old(fields)
      ensures arg.Some? && arg != Some([]) ==> current.None? && fields == old(fields) + arg.value
    {
      if arg.None? || arg == Some([]) {
        return Some(fields);
      }
      fields := fields + arg.value;
      return None;
    }

    /** `on(name, callback)`: the handler is appended to the event's list. */
    method On(name: string, h: Handler)
      modifies this`events
      ensures events == old(events)[name := HandlersOf(old(events), name) + [h]]
    {
      if name !in events {
        events := events[name := []];
      }
      events := events[name := events[name] + [h]];
    }

    /** `_trigger(name, *args)`. */
    method Trigger(name: string, args: seq<Value>) returns (r: Value)
      ensures r == Outcome(HandlersOf(events, name), args)
    {
      r := Fire(HandlersOf(events, name), args);
    }

    /** `_find_field(name, type)`. */
    function Lookup(name: string, kind: string): (r: Field?)
      reads this`fields, fields
    {
      FieldFor(fields, name, kind)
    }

    /** `_find_field(name, type)`: the first field answering to the name,
        skipping empty slots. */
    method FindField(name: string, kind: string) returns (r: Field?)
      ensures r == Lookup(name, kind)
      ensures r != null ==> AnswersTo(r, name, kind)
    {
      r := FirstField(fields, name, kind);
    }

    // -------------------------------------------------------------------
    // Validation

    /** `_validate(errors, data, action)` with `errors` this editor's field
        errors: the rows are validated by every field when validation is on
        and the action writes, errors are appended as they are found, and
        the answer is whether the error list is empty. */
    method Validate(rows: seq<Row>, action: Requests.Action) returns (r: Res<bool>)
      modifies this`fieldErrors
      ensures !doValidate || (action != Requests.Create && action != Requests.Edit) ==>
        r == Success(true) && fieldErrors == old(fieldErrors)
      ensures doValidate && (action == Requests.Create || action == Requests.Edit) ==>
        var g := AllVerdicts(rows, fields, Requests.ActionWord(action));
        fieldErrors == old(fieldErrors) + g.errors
        && r == (if g.failure.Some? then Failure(g.failure.value) else Success(|fieldErrors| == 0))
    {
      if !doValidate {
        return Success(true);
      }
      if action != Requests.Create && action != Requests.Edit {
        return Success(true);
      }
      var g := AllErrors(rows, fields, Requests.ActionWord(action));
      fieldErrors := fieldErrors + g.errors;
      if g.failure.Some? {
        return Failure(g.failure.value);
      }
      return Success(|fieldErrors| == 0);
    }


    // -------------------------------------------------------------------
    // Removal

    /** The deletions `__remove` asks for once the ids are known: the joined
        tables first (when `left_join_remove` is set), then the main tables.
        The parent-link test reads the first key column, which raises for
        an empty key. */
    function RemovalPlan(ids: seq<string>): Res<seq<Removal>>
      reads this`leftJoinRemove, this`leftJoins, this`pkey, this`tables
    {
      if |ids| == 0 then Success([])
      else
        var links :- if !leftJoinRemove || |leftJoins| == 0 then Success([])
                     else if |pkey| == 0 then Failure(IndexError)
                     else Success(LinkRemovals(leftJoins, ids, pkey));
        Success(links + TableRemovals(tables, ids))
    }

    /** The `preRemove` loop of `__remove`: cancelled ids are recorded,
        and the others are answered. */
    method PartitionRemovals(rows: seq<Row>) returns (ids: seq<string>)
      modifies this`cancelled
      ensures cancelled == old(cancelled) + RemovePartition(rows, idPrefix, HandlersOf(events, "preRemove")).0
      ensures ids == RemovePartition(rows, idPrefix, HandlersOf(events, "preRemove")).1
    {
      var dropped;
      dropped, ids := ScreenRemovals(HandlersOf(events, "preRemove"), rows, idPrefix);
      cancelled := cancelled + dropped;
    }

    /** The join and table loops of `__remove` for a non-empty list of ids. */
    method PlanRemovals(ids: seq<string>) returns (r: Res<seq<Removal>>)
      requires |ids| > 0
      ensures r == RemovalPlan(ids)
    {
      var links: seq<Removal> := [];
      if leftJoinRemove {
        for k := 0 to |leftJoins|
          invariant links == (if k == 0 || |pkey| == 0 then [] else LinkRemovals(leftJoins[..k], ids, pkey))
          invariant k > 0 ==> |pkey| > 0
        {
          assert leftJoins[..k + 1][..k] == leftJoins[..k];
          var roles := RemoveRoles(leftJoins[k]);
          if |pkey| == 0 {
            return Failure(IndexError);
          }
          if roles.parent == pkey[0] && |pkey| == 1 {
            links := links + [Removal(leftJoins[k].table, ids, Some([roles.child]))];
          }
        }
        assert leftJoins[..|leftJoins|] == leftJoins;
      }
      return Success(links + TableRemovals(tables, ids));
    }

    /** `__remove(data)` over the submitted rows. */
    method Remove(rows: seq<Row>) returns (r: Res<()>)
      modifies this`cancelled, this`removals
      ensures var ids := RemovePartition(rows, idPrefix, HandlersOf(events, "preRemove")).1;
        cancelled == old(cancelled) + RemovePartition(rows, idPrefix, HandlersOf(events, "preRemove")).0
        && (RemovalPlan(ids).Failure? ==> removals == old(removals) && r == Failure(RemovalPlan(ids).error))
        && (RemovalPlan(ids).Success? ==> removals == old(removals) + RemovalPlan(ids).value)
        && (RemovalPlan(ids).Success? ==>
              r == if FirstUnnamed(ids, rows, idPrefix).Some? then Failure(KeyError(FirstUnnamed(ids, rows, idPrefix).value))
                   else Success(()))
    {
      var ids := PartitionRemovals(rows);
      if |ids| == 0 {
        return Success(());
      }
      var plan := PlanRemovals(ids);
      if plan.Failure? {
        return Failure(plan.error);
      }
      removals := removals + plan.value;
      r := PostRemove(ids, rows);
    }

    /** The `postRemove` loop of `__remove`: each removed id is looked up,
        with the prefix put back, among the submitted rows, and the event is
        given the id and that row's values. */
    method PostRemove(ids: seq<string>, rows: seq<Row>) returns (r: Res<()>)
      ensures r == if FirstUnnamed(ids, rows, idPrefix).Some? then Failure(KeyError(FirstUnnamed(ids, rows, idPrefix).value))
                   else Success(())
    {
      for k := 0 to |ids|
        invariant FirstUnnamed(ids, rows, idPrefix) == FirstUnnamed(ids[k..], rows, idPrefix)
      {
        assert ids[k..][1..] == ids[k + 1..];
        if !HasKey(rows, idPrefix + ids[k]) {
          return Failure(KeyError(idPrefix + ids[k]));
        }
        var _ := Trigger("postRemove", [Str(ids[k]), RowValues(rows, idPrefix + ids[k])]);
      }
      assert ids[|ids|..] == [];
      return Success(());
    }

    // -------------------------------------------------------------------
    // The pre-write hooks of a create or an edit

    /** The pre-write hooks of `__process` as written: the first
        cancellation removes its row from the dictionary being iterated,
        records its key, and the next step of the iteration raises. */
    method PreWriteHooksAsWritten(rows: seq<Row>, create: bool) returns (r: Res<seq<Row>>)
      modifies this`cancelled
      ensures var flags := HookFlags(rows, HandlersOf(events, if create then "preCreate" else "preEdit"), create, idPrefix);
        r == HooksAsWritten(rows, flags)
        && (FirstSet(flags).None? ==> cancelled == old(cancelled))
        && (FirstSet(flags).Some? ==> cancelled == old(cancelled) + [rows[FirstSet(flags).value].0])
    {
      var dropped;
      r, dropped := ScreenRowsAsWritten(HandlersOf(events, if create then "preCreate" else "preEdit"), rows, create, idPrefix);
      cancelled := cancelled + dropped;
    }

    /** The pre-write hooks of `__process` as intended, over a snapshot of
        the keys: every cancelled row is dropped and its key recorded, and
        the other rows go on to validation. */
    method PreWriteHooks(rows: seq<Row>, create: bool) returns (kept: seq<Row>)
      modifies this`cancelled
      ensures var flags := HookFlags(rows, HandlersOf(events, if create then "preCreate" else "preEdit"), create, idPrefix);
        kept == KeptRows(rows, flags) && cancelled == old(cancelled) + CancelledKeys(rows, flags)
    {
      var dropped;
      kept, dropped := ScreenRows(HandlersOf(events, if create then "preCreate" else "preEdit"), rows, create, idPrefix);
      cancelled := cancelled + dropped;
    }

    // -------------------------------------------------------------------
    // Joins and keys

    /** `_prep_join()`: with left joins, every undotted key column is
        qualified with the main table's alias (the first table, which
        raises when there is none), and then every field must name its
        table. */
    method PrepJoin() returns (r: Res<()>)
      modifies this`pkey
      ensures |leftJoins| == 0 ==> pkey == old(pkey) && r == Success(())
      ensures |leftJoins| > 0 && |tables| == 0 && (exists k :: 0 <= k < |old(pkey)| && '.' !in old(pkey)[k]) ==>
        pkey == old(pkey) && r == Failure(IndexError)
      ensures |leftJoins| > 0 && |tables| > 0 ==>
        pkey == QualifiedKeys(old(pkey), Alias(tables[0], "alias")) && r == FieldsQualified(fields)
      ensures |leftJoins| > 0 && (forall k :: 0 <= k < |old(pkey)| ==> '.' in old(pkey)[k]) ==>
        pkey == old(pkey) && r == FieldsQualified(fields)
    {
      if |leftJoins| == 0 {
        return Success(());
      }
      for i := 0 to |pkey|
        invariant |pkey| == |old(pkey)|
        invariant forall k :: i <= k < |pkey| ==> pkey[k] == old(pkey)[k]
        invariant forall k :: 0 <= k < i ==> '.' in old(pkey)[k] ==> pkey[k] == old(pkey)[k]
        invariant |tables| > 0 ==> forall k :: 0 <= k < i ==> pkey[k] == QualifiedKeys(old(pkey), Alias(tables[0], "alias"))[k]
        invariant |tables| == 0 ==> pkey == old(pkey) && forall k :: 0 <= k < i ==> '.' in old(pkey)[k]
      {
        var val := pkey[i];
        if '.' !in val {
          if |tables| == 0 {
            return Failure(IndexError);
          }
          pkey := pkey[i := Alias(tables[0], "alias") + "." + val];
        }
      }
      for i := 0 to |fields|
        invariant FieldsQualified(fields) == FieldsQualified(fields[i..])
      {
        assert fields[i..][1..] == fields[i + 1..];
        var field := fields[i];
        if field == null {
          return Failure(AttributeError);
        }
        if '.' !in field.dbField {
          return Failure(ValueError);
        }
      }
      return Success(());
    }

    /** The key object after `_pkey_submit_merge` has taken every key column
        whose database field applies to an edit from the submitted row. */
    function Merged(arr: map<string, Value>, columns: seq<string>, row: Value): Res<map<string, Value>>
      reads this`fields, fields
      decreases |columns|
    {
      if |columns| == 0 then Success(arr)
      else
        var next :- MergeColumn(arr, columns[0], row);
        Merged(next, columns[1..], row)
    }

    /** One key column of the merge: the column's database field, when
        there is one and it applies to an edit, supplies the value. */
    function MergeColumn(before: map<string, Value>, column: string, row: Value): Res<map<string, Value>>
      reads this`fields, fields
    {
      var field := Lookup(column, "db");
      if field == null then Success(before)
      else
        var applies :- field.Apply("edit", row);
        if !applies then Success(before)
        else
          var v :- field.Val("set", row);
          Success(before[column := v])
    }

    /** What `_pkey_submit_merge(pkey_val, row)` returns. */
    function SubmitMergeSpec(pkeyVal: string, row: Value): Res<string>
      reads this`pkey, this`idPrefix, this`fields, fields
    {
      var arr :- RowObject(Codec(), pkeyVal, true, None);
      var merged :- Merged(arr, pkey, row);
      RowId(Codec(), Dict(merged), true)
    }

    /** `_pkey_submit_merge(pkey_val, row)`. */
    method SubmitMerge(pkeyVal: string, row: Value) returns (r: Res<string>)
      ensures r == SubmitMergeSpec(pkeyVal, row)
    {
      var arr :- KeyToObject(Codec(), pkeyVal, true, None);
      var merged :- MergeKeyFields(arr, pkey, row);
      r := KeyToValue(Codec(), Dict(merged), true);
    }

    /** The key-column loop of `_pkey_submit_merge`. */
    method MergeKeyFields(arr: map<string, Value>, columns: seq<string>, row: Value) returns (r: Res<map<string, Value>>)
      ensures r == Merged(arr, columns, row)
    {
      var acc, rest := arr, columns;
      while |rest| > 0
        invariant Merged(acc, rest, row) == Merged(arr, columns, row)
      {
        var next := MergeOneColumn(acc, rest[0], row);
        if next.Failure? {
          return next;
        }
        acc, rest := next.value, rest[1..];
      }
      return Success(acc);
    }

    /** One key column of that loop. */
    method MergeOneColumn(acc: map<string, Value>, column: string, row: Value) returns (r: Res<map<string, Value>>)
      ensures r == MergeColumn(acc, column, row)
    {
      var field := FindField(column, "db");
      if field == null {
        return Success(acc);
      }
      var applies :- field.Apply("edit", row);
      if !applies {
        return Success(acc);
      }
      var v :- field.Val("set", row);
      return Success(acc[column := v]);
    }

    /** When no key column has a database field, the merge rebuilds the
        submitted id unchanged (for distinct key columns, a prefix-free id
        and the right number of pieces). */
    lemma SubmitMergeKeepsId(pkeyVal: string, row: Value)
      requires forall k :: 0 <= k < |pkey| ==> Lookup(pkey[k], "db") == null
      requires forall i, j :: 0 <= i < j < |pkey| ==> pkey[i] != pkey[j]
      requires |idPrefix| == 0 || !Contains(pkeyVal, idPrefix)
      requires |Split(pkeyVal, Separator(Codec()))| == |pkey|
      ensures SubmitMergeSpec(pkeyVal, row) == Success(pkeyVal)
    {
      IdRoundTrip(Codec(), pkeyVal);
      var arr := RowObject(Codec(), pkeyVal, true, None).value;
      MergedUnchanged(arr, pkey, row);
    }

    lemma {:induction false} MergedUnchanged(arr: map<string, Value>, columns: seq<string>, row: Value)
      requires forall k :: 0 <= k < |columns| ==> Lookup(columns[k], "db") == null
      ensures Merged(arr, columns, row) == Success(arr)
      decreases |columns|
    {
      if |columns| > 0 {
        MergedUnchanged(arr, columns[1..], row);
      }
    }

    /** A single-column key whose field applies to an edit takes the text of
        the submitted value. */
    lemma SubmitMergeSingleColumn(pkeyVal: string, row: Value, v: Value)
      requires |pkey| == 1 && Lookup(pkey[0], "db") != null
      requires Lookup(pkey[0], "db").Apply("edit", row) == Success(true)
      requires Lookup(pkey[0], "db").Val("set", row) == Success(v) && !v.Null?
      requires |IdParts(Codec(), pkeyVal)| == 1
      ensures SubmitMergeSpec(pkeyVal, row) == Success(ToStr(v))
    {
      var arr := RowObject(Codec(), pkeyVal, true, None).value;
      assert pkey[..0] == [];
      var merged := arr[pkey[0] := v];
      assert Merged(arr, pkey, row) == Success(merged);
      assert pkey[..|pkey| - 1] == [];
      assert KeyStrings(pkey[..0], Dict(merged), true) == Success([]);
      assert KeyElement(Dict(merged), pkey[0], true) == Success(v);
      assert [] + [ToStr(v)] == [ToStr(v)];
      assert KeyStrings(pkey, Dict(merged), true) == Success([ToStr(v)]);
    }

    // -------------------------------------------------------------------
    // Insert and update

    /** The configuration the write side reads. */
    function Config(): WriteConfig
      reads this`pkey, this`idPrefix, this`tables, this`leftJoins
    {
      WriteConfig(Codec(), tables, leftJoins)
    }

    /** `_insert_or_update(id, values)`. */
    method InsertOrUpdate(id: Option<string>, values: Value) returns (r: Res<Option<string>>)
      modifies this`db
      ensures var w := old(Written(Config(), fields, db, id, values));
        r == Answer(w) && (w.Success? ==> db == w.value.0)
    {
      var w := WriteStore(Config(), fields, db, id, values);
      if w.Success? {
        db := w.value.0;
      }
      r := Answer(w);
    }

    /** The id `_insert` answers once the store is written: none when no
        main table received a record; otherwise, for a compound key, the id
        of the gathered values, and for a single-column key the generated
        key merged with them. */
    function InsertedId(all: map<string, Value>, generated: Option<string>): Res<Option<string>>
      reads this`pkey, this`idPrefix, this`fields, fields
    {
      if generated.None? then Success(None)
      else
        var id :- if |pkey| > 1 then RowId(Codec(), Dict(all), false) else SubmitMergeSpec(generated.value, Dict(all));
        Success(Some(id))
    }

    /** `_insert(values)`: the values are gathered first, so a failure
        there writes nothing; then the store is written and the new id
        built. */
    method Insert(values: Value) returns (r: Res<Option<string>>)
      modifies this`db
      ensures var all := InsertValues(fields, values);
        var w := Written(Config(), fields, old(db), None, values);
        (all.Failure? ==> r == Failure(all.error) && db == old(db))
        && (all.Success? && w.Failure? ==> r == Failure(w.error))
        && (all.Success? && w.Success? ==> db == w.value.0 && r == InsertedId(all.value, w.value.1))
    {
      ghost var cfg, fs := Config(), fields;
      var all :- GatherInsertValues(fields, values);
      r := InsertGathered(all, values);
      assert cfg == Config() && fs == fields;
    }

    /** The rest of an insert once the values are gathered. */
    method InsertGathered(all: map<string, Value>, values: Value) returns (r: Res<Option<string>>)
      modifies this`db
      ensures var w := Written(Config(), fields, old(db), None, values);
        (w.Failure? ==> r == Failure(w.error))
        && (w.Success? ==> db == w.value.0 && r == InsertedId(all, w.value.1))
    {
      ghost var w := Written(Config(), fields, db, None, values);
      var generated :- InsertOrUpdate(None, values);
      assert w.Success? && generated == w.value.1;
      r := NewRowId(all, generated);
    }

    /** The id built once an insert has written the store. */
    method NewRowId(all: map<string, Value>, generated: Option<string>) returns (r: Res<Option<string>>)
      ensures r == InsertedId(all, generated)
    {
      if generated.None? {
        return Success(None);
      }
      var id: string;
      if |pkey| > 1 {
        id :- KeyToValue(Codec(), Dict(all), false);
      } else {
        id :- SubmitMerge(generated.value, Dict(all));
      }
      return Success(Some(id));
    }

    /** `_update(orig_id, values)`: the id loses the row prefix, the store
        is written on it, and the answer is the id merged with the submitted
        key values. */
    method Update(origId: string, values: Value) returns (r: Res<string>)
      modifies this`db
      ensures var id := Replace(origId, idPrefix, "");
        var w := Written(Config(), fields, old(db), Some(id), values);
        (w.Failure? ==> r == Failure(w.error))
        && (w.Success? ==> db == w.value.0 && r == SubmitMergeSpec(id, values))
    {
      var id := Replace(origId, idPrefix, "");
      var _ :- InsertOrUpdate(Some(id), values);
      r := SubmitMerge(id, values);
    }

    /** With a single key column that has no field, an insert answers the
        key the store generated (when the row prefix does not occur in
        it). */
    lemma InsertAnswersGeneratedKey(all: map<string, Value>, n: nat)
      requires |pkey| == 1 && Lookup(pkey[0], "db") == null
      requires |idPrefix| == 0 || !Contains(IntToStr(n), idPrefix)
      ensures InsertedId(all, Some(IntToStr(n))) == Success(Some(IntToStr(n)))
    {
      DecimalDigits(n);
      SplitWithoutUnderscore(IntToStr(n), Separator(Codec()));
      SubmitMergeKeepsId(IntToStr(n), Dict(all));
    }
  }

  /** A string without `_` does not split at a separator starting with
      one. */
  lemma SplitWithoutUnderscore(s: string, sep: string)
    requires |sep| > 0 && sep[0] == '_' && '_' !in s
    ensures Split(s, sep) == [s]
  {
  }

  /** The handlers registered for an event. */
  function HandlersOf(events: map<string, seq<Handler>>, name: string): seq<Handler> {
    if name in events then events[name] else []
  }

  predicate Empty(arg: NameArg) {
    match arg
    case One(n) => |n| == 0
    case Many(ns) => |ns| == 0
  }

  /** The tables after `table(arg)`. */
  function AddedNames(current: seq<string>, arg: NameArg): seq<string> {
    if Empty(arg) then current else current + NamesOf(arg)
  }
}
