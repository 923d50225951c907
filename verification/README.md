# DataTables Editor for Python: a Dafny model of the request engine

This project models the in-memory core of the Python server library for
DataTables Editor: the `Editor` request engine, its fields, validators and
formatters, the options lists of select fields, the column bookkeeping of
tables, and the nested-path helpers they all use.  It states and proves what
these parts promise to their callers.

The modules follow the source files:

- `Editors` (`editor.dfy`) is `Editor`. It keeps the configuration as
  fields of a class: tables, primary key, row id prefix, fields, left joins,
  event handlers, and the flags for validation and join removal.
  - Events are handler lists folded by `_trigger`.
  - Batch validation appends one error per row and field.
  - The `preRemove` partition decides which rows are cancelled and which are
    removed; `__remove` then plans its deletions.
  - `preCreate`/`preEdit` cancellation is modelled both as written and as
    intended (see "Findings").
  - `_prep_join` qualifies key names.
  - `_insert`, `_update` and `_insert_or_update` write against an abstract
    database.
- `Writes` (`editor_store.dfy`) holds that database: a map from table name
  to a list of records, plus a counter for generated keys and the column in
  which a main table keeps its key. It also holds the
  routing of fields into a table's write set and the insert / update /
  upsert choice of `_insert_or_update_table`.
- `PrimaryKeys` (`editor_keys.dfy`) is the compound-key codec:
  `pkey_to_value`, `pkey_to_object` and the separator built from a checksum
  of the key names.
- `Names` (`editor_names.dfy`) covers `_part` and `__alias`, plus the three
  different rules the engine uses to tell the parent side of a left join
  from the child side.
- `Requests` (`editor_requests.dfy`) covers `action` and
  `__convert_data_to_dict`.
- `Fields` (`field.dfy`) is `Field`: its defaults, `set`, `validator`,
  `val`, `_apply`, `_write` and the first-failure validator chain.
- `Validators`, `Formatters`, `ValidationSettings`, `OptionLists`, `Tables`,
  `NestedData` and `Utils` follow `validators.py`, `formatters.py`,
  `validation_options.py`, `options.py`, `table.py`, `nested_data.py` and
  `utils.py`.
- `PyValues` and `PyStrings` write out the Python semantics the core relies
  on: the JSON-shaped values and their `==`, `in`, `[]`, `str()`, `repr()`
  and truth test; and the string methods (`find`, `split`, `join`, `replace`,
  `rstrip`, `lower`, ...).
- `Wrappers` holds `Option` and `Result`.

Modelling conventions:

- An exception becomes `Failure(e)`. The error kinds are `TypeError`,
  `KeyError`, `AttributeError`, `IndexError`, `ValueError`, `RuntimeError`,
  or a raised message.
- Event handlers, custom validators, formatters and callable static values
  are function-valued parameters. They are total: a handler that raises,
  and the exception escaping `_trigger`, are not modelled.
- The CRC-32 checksum is a function parameter of the editor.
- Submitted rows are kept in submission order, as a sequence of
  (key, values) pairs.

## Model

| member | source | states |
|---|---|---|
| Editors.OutcomeIsLastAnswer | Editor/website/editor/editor.py:559-569 | an event answers `None` exactly when every handler answers `None`; otherwise it answers the last non-`None` answer |
| Editors.LaterHandlerOverrides | Editor/website/editor/editor.py:564-567 | a handler added later overrides the answer unless it answers `None` |
| Editors.Fire | Editor/website/editor/editor.py:559-569 | running the handlers in order gives the event's outcome |
| Editors.FirstAnswering | Editor/website/editor/editor.py:640-650 | the position found is the first field, skipping missing ones, whose name (`name`) or database field (`db`) matches; none is found only when no field matches |
| Editors.NamedPosition | Editor/website/editor/editor.py:302-307 | the named field is the first one with that name; a missing field met before it raises `AttributeError`; no match means none is found |
| Editors.ThenAssociates | Editor/website/editor/editor.py:1303-1314 | gathering errors row by row does not depend on how the rows are grouped |
| Editors.FootprintTail | Editor/website/editor/editor.py:1307 | the validators read for the later fields are among those read for all fields |
| Editors.RowVerdictsAnswer | Editor/website/editor/editor.py:1307-1309 | a row's validation that raised nothing validated every field, and no field was missing |
| Editors.RowVerdictsSound | Editor/website/editor/editor.py:1307-1314 | every error gathered for a row names a field whose validation did not answer `True`, with that field's database name and answer |
| Editors.RowVerdictsComplete | Editor/website/editor/editor.py:1307-1314 | every field whose validation did not answer `True` has its error gathered |
| Editors.AllValidRowsGatherNothing | Editor/website/editor/editor.py:1303-1318 | when every field accepts every row, no error is gathered and nothing is raised |
| Editors.RowAllValid | Editor/website/editor/editor.py:1307-1314 | when every field accepts a row, it gathers no error |
| Editors.AllVerdictsUnfold | Editor/website/editor/editor.py:1303-1314 | the errors of the rows are those of the first row followed by those of the rest |
| Editors.AllErrors | Editor/website/editor/editor.py:1303-1316 | the loop over rows gathers exactly the errors the rows give, stopping at the first raised error, and changes no field |
| Editors.RowErrors | Editor/website/editor/editor.py:1307-1314 | the loop over fields gathers exactly the row's errors and changes no field |
| Editors.StrippedKeys | Editor/website/editor/editor.py:1193 | each submitted key loses every occurrence of the id prefix, in order |
| Editors.StrippedKeysSnoc | Editor/website/editor/editor.py:1191-1193 | stripping one more key adds its stripped id at the end |
| Editors.RemovePartitionSnoc | Editor/website/editor/editor.py:1191-1199 | one more row adds its id to exactly one side |
| Editors.RemovePartitionCounts | Editor/website/editor/editor.py:1188-1199 | the cancelled ids and the ids to remove together are the stripped keys, as a multiset |
| Editors.RemovePartitionSides | Editor/website/editor/editor.py:1195-1199 | an id is cancelled only if `preRemove` answered `False` for it, and is kept for removal only if it did not |
| Editors.RemoveWithoutHandlers | Editor/website/editor/editor.py:1195-1199 | without `preRemove` handlers nothing is cancelled and every stripped key is removed |
| Editors.ScreenRemovals | Editor/website/editor/editor.py:1188-1199 | the loop over keys splits them into cancelled ids and ids to remove as the partition says |
| Editors.LinkRemovals | Editor/website/editor/editor.py:1208-1223 | every removal from a joined table removes the same ids, keyed on the child link |
| Editors.TableRemovals | Editor/website/editor/editor.py:1225-1227 | each main table, in order, removes the ids on the primary key |
| Editors.FirstUnnamed | Editor/website/editor/editor.py:1229-1231 | none is found only when every removed id, with the prefix, was submitted; otherwise it is a removed id whose prefixed key was not submitted |
| Editors.HookFlags | Editor/website/editor/editor.py:1430-1441 | one flag per row, set exactly when the row's `preCreate`/`preEdit` outcome is `False` |
| Editors.FirstSet | Editor/website/editor/editor.py:1430-1443 | the first cancelled row, if there is one |
| Editors.FirstSetAt | Editor/website/editor/editor.py:1430-1443 | a set flag with none set before it is the first |
| Editors.KeptRowsExact | Editor/website/editor/editor.py:1441-1446 | the kept rows are exactly those not cancelled and the cancelled keys exactly those of cancelled rows, and together they account for every row |
| Editors.KeptStep | Editor/website/editor/editor.py:1430-1446 | one more row is either kept or has its key cancelled |
| Editors.NothingCancelledKeepsAll | Editor/website/editor/editor.py:1441 | when no handler cancels, every row is kept and nothing is cancelled |
| Editors.CancellingRaises | Editor/website/editor/editor.py:1426-1446 | cancelling the second of two rows raises `RuntimeError` as written; with the snapshot the first row is kept and the second cancelled |
| Editors.RefusingHandlerCancelsAll | Editor/website/editor/editor.py:1434-1441 | a handler that answers `False` cancels every row |
| Editors.ScreenRowsAsWritten | Editor/website/editor/editor.py:1426-1446 | the loop as written: it stops with `RuntimeError` after the first cancelled row, whose key is the only one cancelled |
| Editors.ScreenRows | Editor/website/editor/editor.py:1426-1446 | the loop over a snapshot of the keys keeps the rows not cancelled and lists the cancelled keys |
| Editors.QualifiedKeys | Editor/website/editor/editor.py:1155-1159 | a key without a dot gets the first table's alias and a dot in front; a dotted key is kept |
| Editors.QualifiedKeysProperties | Editor/website/editor/editor.py:1155-1159 | every qualified key holds a dot, dotted keys are unchanged, and qualifying twice is qualifying once |
| Editors.FieldsQualified | Editor/website/editor/editor.py:1164-1170 | the check passes exactly when every field's database name holds a dot |
| Editors.AsConditions | Editor/website/editor/editor.py:894 | a key object becomes write conditions with the same columns and values |
| Editors.TablesPassUnfold | Editor/website/editor/editor.py:891-898 | the main-table loop is the first table's write followed by the rest, stopping at a failure |
| Editors.JoinsPassUnfold | Editor/website/editor/editor.py:901-941 | the left-join loop is the first join's write followed by the rest, stopping at a failure |
| Editors.TableStepEdit | Editor/website/editor/editor.py:1048-1059 | an edit of a main table keeps the id, the key counter and every table's record count |
| Editors.EditKeepsRowCounts | Editor/website/editor/editor.py:891-898 | an edit over all main tables keeps the id, the key counter and every table's record count |
| Editors.TableStepCreate | Editor/website/editor/editor.py:978-995 | a create on a main table answers no key and changes nothing exactly when its write set is empty; otherwise it appends the write set, holding the generated key in the key column, and answers that key |
| Editors.CreateAnswersFirstKey | Editor/website/editor/editor.py:891-898 | a create over the main tables answers the key of the first insert, and generates exactly one key or changes nothing |
| Editors.JoinSkippedWithoutLink | Editor/website/editor/editor.py:920-934 | when the parent link is not the sole primary key, a join is skipped exactly when neither link field has a `db` field that applies to the edit |
| Editors.JoinOnKeyLinksId | Editor/website/editor/editor.py:920-921 | when the parent link is the sole primary key, the join is keyed on the row id |
| Editors.JoinEmptyWriteSetSkips | Editor/website/editor/editor.py:978-979 | a join table with no field to write is left alone |
| Editors.JoinUnnamedColumnRaises | Editor/website/editor/editor.py:938-941 | a child link without a column part puts `None` into the conditions, which raises `TypeError` |
| Editors.JoinWritesLinkedRow | Editor/website/editor/editor.py:1009-1044 | a join writes only its table: it updates the records matching the link, or inserts the write set with the link when none matches, and keeps the key counter |
| Editors.JoinStepKeepsKeyCounter | Editor/website/editor/editor.py:938-941 | a join write never generates a key |
| Editors.JoinsKeepKeyCounter | Editor/website/editor/editor.py:901-941 | the left-join pass never generates a key |
| Editors.WrittenKey | Editor/website/editor/editor.py:882-943 | an edit answers its id and generates no key; a create answers the next generated key, or generates none and answers nothing |
| Editors.WriteStore | Editor/website/editor/editor.py:882-943 | the write of the main tables and then the left joins gives the written store and answered id |
| Editors.WriteMainTables | Editor/website/editor/editor.py:891-898 | the loop over main tables threads the store and the id through each table write, the first answered key becoming the id |
| Editors.WriteMainTable | Editor/website/editor/editor.py:892-898 | one main table is written with conditions from the key object of the id |
| Editors.WriteJoins | Editor/website/editor/editor.py:901-941 | the loop over left joins writes each linked table in order |
| Editors.WriteJoin | Editor/website/editor/editor.py:902-941 | one join: find the roles, the link value and the condition column, then write the table |
| Editors.FindJoinLink | Editor/website/editor/editor.py:920-936 | the link value is the id for a sole-key parent, otherwise the `set` value of the first link field that applies to the edit |
| Editors.FindLink | Editor/website/editor/editor.py:926-936 | the parent field is tried first, then the child field; none applies means no link |
| Editors.WriteTable | Editor/website/editor/editor.py:945-1063 | one table write: routing, the empty write set, then the main insert, the linked insert, the linked upsert or the main update |
| Editors.CollectWriteSet | Editor/website/editor/editor.py:958-976 | the loop over fields builds the write set |
| Editors.CollectField | Editor/website/editor/editor.py:959-976 | one field is routed and, when it applies, its `set` value is stored under its column part |
| Editors.FirstField | Editor/website/editor/editor.py:640-650 | the loop returns the first field answering to the name, or none |
| Editors.InsertValuesStep | Editor/website/editor/editor.py:852-855 | one more field adds its non-`None` `set` value under its name |
| Editors.InsertValuesPrefixFailure | Editor/website/editor/editor.py:852-855 | a failure on a prefix of the fields is the failure of the whole |
| Editors.InsertValuesFrom | Editor/website/editor/editor.py:852-855 | continuing from any prefix gathers the same values |
| Editors.GatherInsertValues | Editor/website/editor/editor.py:850-855 | the loop over fields gathers the insert values |
| Editors.GatherField | Editor/website/editor/editor.py:853-855 | one field's `set` value is written at its name unless it is `None` |
| Editors.InsertValuesHoldSetValues | Editor/website/editor/editor.py:850-855 | with undotted names, each gathered value is a non-`None` `set` value of a field of that name, and the last field of each name with a non-`None` value is the one kept |
| Editors.InsertValuesSucceedEach | Editor/website/editor/editor.py:852-855 | a successful gather means every field's `set` value was read without error |
| Editors.InsertValuesKeysFromFields | Editor/website/editor/editor.py:852-855 | every gathered name belongs to a field whose `set` value is the gathered one, never `None` |
| Editors.InsertValuesLastWins | Editor/website/editor/editor.py:852-855 | the last field of a name with a non-`None` value decides that name |
| Editors.Editor.constructor | Editor/website/editor/editor.py:43-89 | a new editor has key `id`, prefix `row_`, no tables, joins, fields, handlers or errors, validation on and join removal off; given tables and keys are applied |
| Editors.Editor.Pkey | Editor/website/editor/editor.py:167-184 | without an argument the key columns are answered; with one they are replaced |
| Editors.Editor.Table | Editor/website/editor/editor.py:527-549 | without an argument, or an empty one, the tables are answered; otherwise the name or names are appended |
| Editors.Editor.IdPrefix | Editor/website/editor/editor.py:341-361 | without an argument the prefix is answered; with one it is replaced |
| Editors.Editor.DoValidate | Editor/website/editor/editor.py:123-140 | without an argument the flag is answered; with one it is set |
| Editors.Editor.LeftJoinRemove | Editor/website/editor/editor.py:444-460 | anything but `True` answers the flag and leaves it; `True` sets it; the flag is never switched off |
| Editors.Editor.AddLeftJoin | Editor/website/editor/editor.py:396-442 | the join is appended to the list |
| Editors.Editor.AddField | Editor/website/editor/editor.py:293-311 | the field is appended to the list |
| Editors.Editor.FieldNamed | Editor/website/editor/editor.py:302-307 | the first field with the name is answered; no match raises `Unknown field: <name>`; a missing field met first raises `AttributeError` |
| Editors.Editor.FieldList | Editor/website/editor/editor.py:313-327 | without fields, or with none, the list is answered; otherwise the fields are appended |
| Editors.Editor.On | Editor/website/editor/editor.py:462-480 | the handler is appended to the event's handlers; no other event changes |
| Editors.Editor.Trigger | Editor/website/editor/editor.py:551-569 | the answer is the outcome of the event's handlers |
| Editors.Editor.FindField | Editor/website/editor/editor.py:632-650 | the answer is the first field answering to the name, or none |
| Editors.Editor.Validate | Editor/website/editor/editor.py:1285-1318 | with validation off or an action other than create or edit, `True` and no errors; otherwise every field's error for every row is appended and the answer is whether the error list is empty, or the first raised error |
| Editors.Editor.PartitionRemovals | Editor/website/editor/editor.py:1188-1199 | the cancelled ids are appended to `cancelled` and the rest answered, as the partition says |
| Editors.Editor.PlanRemovals | Editor/website/editor/editor.py:1208-1227 | the removals are those of the joined tables (when join removal is on) followed by those of the main tables |
| Editors.Editor.Remove | Editor/website/editor/editor.py:1182-1233 | cancelled ids are recorded; the planned removals are recorded; a removed id whose prefixed key was not submitted raises `KeyError` |
| Editors.Editor.PostRemove | Editor/website/editor/editor.py:1229-1231 | the `postRemove` lookup of each removed id raises `KeyError` for the first id whose prefixed key was not submitted |
| Editors.RowValues | Editor/website/editor/editor.py:1229-1231 | the values handed to `postRemove` are those of a submitted row under the prefixed id, with no later row under that id |
| Editors.Editor.PreWriteHooksAsWritten | Editor/website/editor/editor.py:1426-1446 | as written: the first cancelled row's key is recorded, then `RuntimeError` is raised |
| Editors.Editor.PreWriteHooks | Editor/website/editor/editor.py:1426-1446 | with a snapshot of the keys: the rows not cancelled are kept and the cancelled keys appended to `cancelled` |
| Editors.Editor.PrepJoin | Editor/website/editor/editor.py:1147-1172 | without joins nothing changes; with joins every undotted key gets the first table's alias (an `IndexError` without tables) and every field must have a dotted database name |
| Editors.Editor.SubmitMerge | Editor/website/editor/editor.py:202-221 | the key is split into its columns, each key column with a field applying to the edit takes the submitted value, and the row id is rebuilt |
| Editors.Editor.MergeKeyFields | Editor/website/editor/editor.py:210-219 | the loop over key columns merges each in turn |
| Editors.Editor.MergeOneColumn | Editor/website/editor/editor.py:211-219 | one key column takes the submitted value when its field applies to the edit |
| Editors.Editor.SubmitMergeKeepsId | Editor/website/editor/editor.py:202-221 | when no key column has a field, the id is answered unchanged |
| Editors.Editor.MergedUnchanged | Editor/website/editor/editor.py:210-219 | key columns without a field leave the key object unchanged |
| Editors.Editor.SubmitMergeSingleColumn | Editor/website/editor/editor.py:202-221 | with a single key column whose field applies to the edit, the answer is the submitted value as text |
| Editors.Editor.InsertOrUpdate | Editor/website/editor/editor.py:882-943 | the store after the write is the written store, and the answer is the id or the generated key |
| Editors.Editor.Insert | Editor/website/editor/editor.py:842-880 | the insert values are gathered first; then the row is written and the new id is the merged key, or nothing when nothing was written |
| Editors.Editor.InsertGathered | Editor/website/editor/editor.py:866-872 | the write follows gathering; a failed write answers its error |
| Editors.Editor.NewRowId | Editor/website/editor/editor.py:867-872 | no generated key answers nothing; a compound key is rebuilt from the gathered values; a single key goes through the key merge |
| Editors.Editor.Update | Editor/website/editor/editor.py:571-596 | the prefix is stripped, the row written, and the answer is the id after the key merge |
| Editors.Editor.InsertAnswersGeneratedKey | Editor/website/editor/editor.py:866-872 | a single key column without a field answers the generated key |
| Writes.WithRows | Editor/website/editor/editor.py:990-991 | a table's records are replaced and no other table or the key counter changes |
| Writes.WriteSetStep | Editor/website/editor/editor.py:958-976 | the write set of one more field is that field's contribution to the write set before it |
| Writes.WriteSetFromPrefix | Editor/website/editor/editor.py:958-976 | continuing the routing loop from any prefix reaches the same write set |
| Writes.WriteSetColumns | Editor/website/editor/editor.py:958-976 | a successful write set has exactly the column parts of the routed fields as keys |
| Writes.WriteSetFieldsRouted | Editor/website/editor/editor.py:958-971 | a successful write set means every field was routed without error |
| Writes.WriteFieldKeys | Editor/website/editor/editor.py:966-976 | one field either leaves the write set as it was or, when routed, adds its column part |
| Writes.WriteSetColumnsSound | Editor/website/editor/editor.py:966-976 | every column of the write set comes from some routed field |
| Writes.WriteSetColumnsComplete | Editor/website/editor/editor.py:966-976 | every routed field's column is in the write set |
| Writes.WriteSetIgnoresTableWithoutJoins | Editor/website/editor/editor.py:965-967 | with no left joins, the table name plays no part in routing |
| Writes.UpdateRows | Editor/website/editor/editor.py:1048-1059 | an update keeps the number of records, leaves non-matching ones alone and sets the write set on matching ones |
| Writes.UpsertEffect | Editor/website/editor/editor.py:983-1059 | only the written table changes; an insert appends one record, which on a main table holds the generated key in the key column; a main update or a matched linked update updates; an unmatched linked update appends the write set with the conditions; only a main insert answers a key, the generated one |
| Writes.KeyedRecord | Editor/website/editor/editor.py:983-995 | the record a main insert stores holds every column of the write set and a key column, which carries the generated key when the write set left it out |
| Writes.CreatedRecordUpdatable | Editor/website/editor/editor.py:983-995 | after a main insert, an update on the answered key in the key column changes the new record (and leaves alone every earlier record that does not hold that key) |
| Writes.MainUpdateKeepsCounts | Editor/website/editor/editor.py:1048-1059 | an update of a main table answers no key and keeps every table's record count |
| Writes.GeneratedKeysDiffer | Editor/website/editor/editor.py:983-995 | two successive main inserts answer different keys |
| Writes.LinkedUpsertEffect | Editor/website/editor/editor.py:1009-1044 | on a linked table, with undotted condition keys, the write succeeds: update when a record matches, otherwise insert the write set with the conditions; the key counter is kept |
| Writes.LinkedInsertThenMatches | Editor/website/editor/editor.py:1036-1044 | after an unmatched linked write, a record matches the conditions |
| PrimaryKeys.Separator | Editor/website/editor/editor.py:186-200 | the separator is `_`, the hex checksum of the comma-joined key names, `_` |
| PrimaryKeys.KeyStringsStep | Editor/website/editor/editor.py:238-256 | one key column: a failing lookup fails, a `None` value raises the missing-key error, otherwise its text is appended |
| PrimaryKeys.KeyToValue | Editor/website/editor/editor.py:223-259 | the id is `RowId`: the key columns' texts joined by the separator, or the lookup's error |
| PrimaryKeys.CollectKeyStrings | Editor/website/editor/editor.py:234-256 | the loop answers `KeyStrings`, failing at the first missing or `None` column |
| PrimaryKeys.ReadKeyElement | Editor/website/editor/editor.py:241-244 | a flat row is looked up directly (`None` when absent); otherwise the nested read of the column |
| PrimaryKeys.KeyToObject | Editor/website/editor/editor.py:261-291 | the result is `RowObject`: prefix removed, split at the separator, arity checked, parts stored flat or nested |
| PrimaryKeys.BuildFlat | Editor/website/editor/editor.py:285-287 | the flat loop stores each part, as text, under its key column, a later column of the same name winning |
| PrimaryKeys.BuildNested | Editor/website/editor/editor.py:285-289 | the nested loop writes each part at its dotted key path, failing as the nested write fails |
| PrimaryKeys.KeyStringsFlat | Editor/website/editor/editor.py:241-256 | on a flat row the key texts exist exactly when every key column is present and not `None`, and are then their texts; otherwise the missing-key error |
| PrimaryKeys.KeyToValueMissing | Editor/website/editor/editor.py:246-248 | the id cannot be built exactly when some key column is missing or `None`, and then the missing-key error is raised |
| PrimaryKeys.FlatObjectLookup | Editor/website/editor/editor.py:285-287 | with distinct key names, the flat object has exactly those keys, each mapped to its part |
| PrimaryKeys.FlatObjectLast | Editor/website/editor/editor.py:285-287 | the last occurrence of a repeated key name holds its part |
| PrimaryKeys.FlatObjectKeys | Editor/website/editor/editor.py:285-287 | the flat object's keys are exactly the key names |
| PrimaryKeys.IdPartsOfJoin | Editor/website/editor/editor.py:276-277 | an id joined from parts with no early separator, not containing the prefix, splits back into those parts |
| PrimaryKeys.KeyRoundTrip | Editor/website/editor/editor.py:223-291 | when every key value is present, not `None`, and free of early separators, decoding the encoded id gives each key column its value's text |
| PrimaryKeys.KeyRoundTripUnderscoreFree | Editor/website/editor/editor.py:223-291 | the round trip holds for key values without underscores |
| PrimaryKeys.IdRoundTrip | Editor/website/editor/editor.py:223-291 | with distinct key names, an id with the right arity decodes and re-encodes to itself |
| PrimaryKeys.KeyStringsOfFlat | Editor/website/editor/editor.py:241-291 | with distinct key names, the key texts read from the flat object built from some parts are those parts |
| PrimaryKeys.KeyToObjectArity | Editor/website/editor/editor.py:282-283 | a part count other than the key length raises the mismatch error |
| PrimaryKeys.NestedKeyMissingIntermediate | Editor/website/editor/editor.py:244-256 | a nested read that misses an intermediate answers False, which is not `None`, so the id becomes the text `False` |
| PrimaryKeys.SplitTwoDotted | Editor/website/editor/nested_data.py:27 | `t.c` with undotted parts splits into `[t, c]` |
| Names.NameParts | Editor/website/editor/editor.py:1128-1137 | a database part comes only with a table and a column, a table only with a column |
| Names.SplitDotted | Editor/website/editor/editor.py:1130-1131 | a name joined from undotted pieces contains a dot and splits back into the pieces |
| Names.TableColumnParts | Editor/website/editor/editor.py:1134-1135 | `t.c` has table `t`, column `c` and no database |
| Names.DbTableColumnParts | Editor/website/editor/editor.py:1132-1133 | `d.t.c` has database `d`, table `t`, column `c` |
| Names.ColumnOnly | Editor/website/editor/editor.py:1136-1137 | an undotted name is the column only |
| Names.PartsRebuildName | Editor/website/editor/editor.py:1119-1145 | the parts hold no dots and, joined with dots, rebuild the name |
| Names.SplitTwo | Editor/website/editor/editor.py:1110 | text, separator, text splits into the two texts |
| Names.LowerAppend | Editor/website/editor/editor.py:1109 | lower-casing distributes over concatenation |
| Names.LowerSpaces | Editor/website/editor/editor.py:1109-1113 | lower-casing neither adds nor removes spaces |
| Names.NoSpaceNoAs | Editor/website/editor/editor.py:1109 | a name without a space holds no ` as ` |
| Names.NoAs | Editor/website/editor/editor.py:1109 | two space-free words joined by one space hold no ` as ` |
| Names.AliasPlain | Editor/website/editor/editor.py:1117 | a name without a space is its own alias and original |
| Names.AliasAs | Editor/website/editor/editor.py:1109-1111 | `t as a` has alias `a` and original `t`, both lower-cased |
| Names.AliasSpace | Editor/website/editor/editor.py:1113-1115 | `t a` has alias `a` and original `t`, case kept |
| Names.JoinTableNamePlain | Editor/website/editor/editor.py:685-686 | a joined table name without ` as ` is itself |
| Names.JoinTableNameAliased | Editor/website/editor/editor.py:687-689 | `t as a` gives the third word, the alias |
| Names.AsHasTwoSpaces | Editor/website/editor/editor.py:685-689 | a name whose lower-cased form holds ` as ` has at least three space-separated words, so `a[2]` never raises |
| Names.SpacedAs | Editor/website/editor/editor.py:687-689 | the words of `t as a` are `t`, `as`, `a` |
| Names.LowerHasAs | Editor/website/editor/editor.py:685 | `t as a` holds ` as ` once lower-cased |
| Names.RolesSplitTheJoin | Editor/website/editor/editor.py:909-918 | each of the three role rules (write, read, remove) assigns the two join fields to parent and child, and each names its own test for `field1` being the child |
| Names.QualifiedField | Editor/website/editor/editor.py:757 | a field `t.c` has table part `t` under all three tests |
| Names.RolesAgreeUnaliased | Editor/website/editor/editor.py:757-762 | for an unaliased join whose `field1` is qualified with the table, the three rules agree |
| Names.RolesDisagreeAliased | Editor/website/editor/editor.py:1211-1216 | for `t as a` with `field1` qualified by the alias, writing and reading take `field1` as child, removing takes the other field |
| Names.RemoveRolesPrefixOnly | Editor/website/editor/editor.py:1211-1216 | a table named by a prefix of `field1`'s table makes the remove rule take `field1` as child while the write rule does not |
| Requests.ActionCases | Editor/website/editor/editor.py:142-165 | no `action` key is a read; `remove`, `edit` and `create` select delete, edit and create, each if and only if that word was sent; anything else is unknown; upload is never recognised |
| Requests.ActionWordRoundTrip | Editor/website/editor/editor.py:142-165 | sending the word of a writing action selects that action |
| Requests.FormPath | Editor/website/editor/editor.py:1516-1521 | a form key names a path of at least one piece |
| Requests.StoreAtPath | Editor/website/editor/editor.py:1517-1521 | the `setdefault` walk for one entry stores the value at its path, or raises `AttributeError` (a non-dictionary met on the way) or `TypeError` (a non-dictionary as the last container) |
| Requests.SetPathStep | Editor/website/editor/editor.py:1518-1520 | a failing container fails the whole store, and a failure further down is the failure of the whole |
| Requests.ConvertDataToDict | Editor/website/editor/editor.py:1506-1523 | the entries are stored one after another in submission order, and the first failing store is the answer |
| Requests.ConvertedPrefixFailure | Editor/website/editor/editor.py:1515-1521 | once a prefix of the entries fails, the whole conversion fails the same way |
| Requests.StripClosing | Editor/website/editor/editor.py:1519 | stripping `]` from a piece that gained one closing bracket gives the piece back |
| Requests.FormKeyPath | Editor/website/editor/editor.py:1513-1521 | the bracketed key `a[b][c]` of a path whose names hold no `[` and end in no `]` converts back to that path |
| Requests.SingleEntryNests | Editor/website/editor/editor.py:1513-1523 | one entry `a[b][c] = v` becomes nested single-key dictionaries ending in `v` |
| Requests.SetPathEmpty | Editor/website/editor/editor.py:1518-1521 | storing into an empty dictionary builds the nest of the path |
| Requests.TopLevelKey | Editor/website/editor/editor.py:1521 | a key without `[` is stored at the top level, with trailing `]` stripped, overwriting what was there |
| Requests.SetPathReadBack | Editor/website/editor/editor.py:1517-1521 | a successful store keeps every other top-level key and can be read back along its path |
| Requests.ScalarBlocksDeeperKey | Editor/website/editor/editor.py:1518-1521 | after `a=x`, `a[b]=y` raises `TypeError` and `a[b][c]=y` raises `AttributeError` |
| Fields.Format | Editor/website/editor/field.py:387-400 | a missing formatter leaves the value as it is |
| Fields.Field.constructor | Editor/website/editor/field.py:27-52 | the name defaults to the database column; get and http on, set both, no validators, formatters or static values |
| Fields.Field.Set | Editor/website/editor/field.py:208-233 | `True` means both actions, `False` neither, a set type is stored as given |
| Fields.Field.AddValidator | Editor/website/editor/field.py:178-206 | the validator and its set-formatted flag are appended after the existing ones |
| Fields.Field.WriteInto | Editor/website/editor/field.py:433-443 | a failing get value fails the write; a successful write reads back the get value at the field's name, and an undotted name is stored at the top level |
| Fields.Field.Validate | Editor/website/editor/field.py:445-476 | the result is `ValidateSpec`: True with no validators, else the chain over the raw value read at the name |
| Fields.RunChain | Editor/website/editor/field.py:466-476 | the loop answers `Chain`: each validator in order, on the raw or set-formatted value, returning the first result that is not True |
| Fields.ChainFirstFailure | Editor/website/editor/field.py:467-473 | an answer other than True is the result of some validator all of whose predecessors passed |
| Fields.ChainSkipsRest | Editor/website/editor/field.py:471-473 | once a validator fails, appending more validators does not change the answer |
| Fields.ChainCons | Editor/website/editor/field.py:467-473 | the chain runs its first validator and, only when it passes, the rest |
| Fields.ChainAllPass | Editor/website/editor/field.py:475-476 | when every validator passes, the chain answers True |
| Fields.ValGetSources | Editor/website/editor/field.py:413-420 | `get` prefers the static get value (called when callable), else the flat column lookup or `None`, then the get formatter |
| Fields.ValSetSources | Editor/website/editor/field.py:422-427 | any other direction prefers the static set value, else the nested read of the name, then the set formatter |
| Fields.ApplyBySetType | Editor/website/editor/field.py:489-500 | `get` answers the get flag; create is refused for none/edit and edit for none/create |
| Fields.ApplyWhenSubmitted | Editor/website/editor/field.py:502-507 | past the set-type check, an undotted field takes part exactly when it has a static set value or its name was submitted |
| Validators.Make | Editor/website/editor/validators.py:104-128 | a built-in validator of the given check over the caller's options object, or over fresh defaults when none is given |
| Validators.Required | Editor/website/editor/validators.py:69-84 | the options object (the caller's own, when given) is switched to neither empty nor optional, its message kept |
| Validators.NotEmpty | Editor/website/editor/validators.py:87-101 | the options object is switched to not empty, its message and optionality kept |
| Validators.CheckOctets | Editor/website/editor/validators.py:358-366 | the loop accepts exactly when every part is digits of value at most 255 |
| Validators.CommonDecides | Editor/website/editor/validators.py:32-46 | `None` is decided by `optional`, the empty string by `empty`, and every other value is left to the specific check |
| Validators.BasicFailsOnlyOnCommon | Editor/website/editor/validators.py:50-66 | `basic` answers the message exactly when the common check rejects, and True otherwise |
| Validators.RequiredRejectsMissingAndEmpty | Editor/website/editor/validators.py:69-84 | with both switches off, `None` and the empty string get the message and every other value passes |
| Validators.NotEmptyWithDefaults | Editor/website/editor/validators.py:87-101 | with default options, the empty string is rejected and `None` accepted |
| Validators.IntTokens | Editor/website/editor/validators.py:120-124 | among integers, exactly 0 and 1 are boolean tokens |
| Validators.StrTokens | Editor/website/editor/validators.py:120-124 | among strings, exactly the listed words are boolean tokens |
| Validators.BooleanAcceptsExactlyTokens | Editor/website/editor/validators.py:113-126 | a non-empty value passes `boolean` exactly when it (lower-cased, if text) is one of the true or false tokens |
| Validators.NumericAcceptsInt | Editor/website/editor/validators.py:152-154 | every integer passes `numeric` |
| Validators.NumericRejectsBool | Editor/website/editor/validators.py:152-158 | a boolean is not an `int` to `type()`, and its text is no number |
| Validators.BoolTextNotNumber | Editor/website/editor/validators.py:156-157 | the text of `True` or `False` with the decimal removed and stripped is not numeric |
| Validators.NumericRejectsLetterLed | Editor/website/editor/validators.py:156-158 | text starting with a letter or symbol (not the decimal) is rejected |
| Validators.DigitsNotSpace | Editor/website/editor/validators.py:156 | stripping leaves a run of digits unchanged |
| Validators.NumericAcceptsDecimalNumber | Editor/website/editor/validators.py:147-160 | digits, the decimal character and digits pass `numeric` |
| Validators.LengthBounds | Editor/website/editor/validators.py:255-314 | for non-empty text, `min_len` accepts exactly lengths at least the minimum and `min_max_len` exactly lengths in range |
| Validators.MaxLenRaises | Editor/website/editor/validators.py:275-292 | `max_len` raises `TypeError` on every value the common check leaves to it |
| Validators.IpOnText | Editor/website/editor/validators.py:349-366 | non-empty text passes `ip` exactly when it splits at dots into four octets |
| Validators.IpOnOther | Editor/website/editor/validators.py:349-354 | a non-text value other than `None` that `ip` has to check raises `AttributeError` from `split` |
| Validators.DecimalOctet | Editor/website/editor/validators.py:358-364 | the decimal digits of any number up to 255 form an octet |
| Validators.IpAcceptsOctets | Editor/website/editor/validators.py:349-366 | four octets joined by dots pass `ip` |
| Validators.IpRejectsWrongPartCount | Editor/website/editor/validators.py:354-356 | text with other than four dot-separated parts is rejected |
| Validators.ValuesMembership | Editor/website/editor/validators.py:425-430 | `values` accepts exactly members of the list by Python equality, so `1` matches `True` |
| Validators.NoTagsSameLine | Editor/website/editor/validators.py:444-449 | a `<` followed by `>` on the same line is rejected; across a line break it passes |
| Formatters.AsStrings | Editor/website/editor/formatters.py:98-100 | the list built from the split pieces holds each piece, as a string, in order |
| Formatters.StringsOf | Editor/website/editor/formatters.py:114-116 | the items can be joined exactly when every item is a string, and then the strings are those items |
| Formatters.Chars | Editor/website/editor/formatters.py:114-116 | joining over a string iterates its characters, one one-character string each |
| Formatters.Explode | Editor/website/editor/formatters.py:90-102 | fails exactly for an empty delimiter; otherwise a non-empty list of strings, none containing the delimiter |
| Formatters.Implode | Editor/website/editor/formatters.py:105-118 | a list joins exactly when all its items are strings; a dictionary joins its keys, giving the empty string for no key and its one key for one key; `None`, booleans and numbers raise |
| Formatters.ImplodeDictKeys | Editor/website/editor/formatters.py:114-116 | joining a dictionary is joining the list of its keys |
| Formatters.ImplodeDictExample | Editor/website/editor/formatters.py:114-116 | joining `{'a': 1}` with a bar as the delimiter gives `a` |
| Formatters.ImplodeEmptyKeyExample | Editor/website/editor/editor.py:1516-1521 | the dictionary `{'': 'x'}` that a `tags[]=x` entry becomes joins to the empty string |
| Formatters.ExplodeDictExample | Editor/website/editor/formatters.py:98-100 | exploding `{'a': 1}` at a comma gives the one piece `{'a': 1}`, its `str` |
| Formatters.IfEmpty | Editor/website/editor/formatters.py:121-132 | never fails; the empty string becomes the configured value and anything else passes through |
| Formatters.StringsOfAsStrings | Editor/website/editor/formatters.py:98-116 | strings converted to a list are recovered by the join's item check |
| Formatters.ImplodeExplode | Editor/website/editor/formatters.py:90-118 | imploding an exploded string gives the string back |
| Formatters.ExplodeImplode | Editor/website/editor/formatters.py:90-118 | imploding a list of strings none of which holds an early delimiter, then exploding, gives the list back |
| Formatters.JoinWithout | Editor/website/editor/formatters.py:116 | a character in neither the delimiter nor the parts is not in the joined string |
| Formatters.SplitPartsWithout | Editor/website/editor/formatters.py:100 | no piece of a split at a character holds that character |
| Formatters.FromDecimalCharReplacesAll | Editor/website/editor/formatters.py:135-150 | every occurrence of the decimal character in the value's text becomes a period |
| Formatters.ToDecimalCharReplacesAll | Editor/website/editor/formatters.py:153-166 | every period becomes the decimal character, and none is left when that character is not a period |
| OptionLists.InsertPermutes | Editor/website/editor/options.py:215-216 | one insertion step adds exactly the inserted option |
| OptionLists.InsertSorted | Editor/website/editor/options.py:215-216 | inserting into a list sorted by label keeps it sorted |
| OptionLists.InsertStable | Editor/website/editor/options.py:215-216 | the inserted option lands after every option with the same label already present |
| OptionLists.WithLabelAppend | Editor/website/editor/options.py:215-216 | the options with a given label in a concatenation are those of each half, in order |
| OptionLists.SortByLabelCorrect | Editor/website/editor/options.py:215-216 | sorting by label gives a sorted permutation in which options with equal labels keep their order |
| OptionLists.SortByLabelSorted | Editor/website/editor/options.py:216 | the sorted list is ordered by label |
| OptionLists.SortByLabelPermutes | Editor/website/editor/options.py:216 | the sorted list holds the same options |
| OptionLists.SortByLabelStable | Editor/website/editor/options.py:216 | options with the same label keep their relative order |
| OptionLists.Options.constructor | Editor/website/editor/options.py:18-27 | a new options object has an empty table, value, labels, order, joins and manual options and no limit or condition |
| OptionLists.Options.Add | Editor/website/editor/options.py:32-45 | a manual option is appended, its value defaulting to its label |
| OptionLists.Options.LeftJoin | Editor/website/editor/options.py:64-79 | the join is appended to the recorded joins |
| OptionLists.Options.Label | Editor/website/editor/options.py:47-62 | no argument returns the columns unchanged; one column is stored as a one-element list, a list as given |
| OptionLists.Options.Table | Editor/website/editor/options.py:117-128 | no argument returns the table unchanged; otherwise the table is set |
| OptionLists.Options.Value | Editor/website/editor/options.py:130-142 | no argument returns the value column unchanged; otherwise it is set |
| OptionLists.Options.Limit | Editor/website/editor/options.py:81-97 | no argument returns the limit; otherwise the limit is stored and `ValueError` is raised |
| OptionLists.Options.Order | Editor/website/editor/options.py:99-115 | no argument returns the order; otherwise the order is stored and `ValueError` is raised |
| OptionLists.Options.Where | Editor/website/editor/options.py:144-158 | no argument returns the condition; otherwise it is stored and `ValueError` is raised |
| OptionLists.Options.FormatLabel | Editor/website/editor/options.py:171-180 | the default renderer answers the label columns joined by spaces, `KeyError` on a missing column, `TypeError` on a non-string |
| OptionLists.Options.Exec | Editor/website/editor/options.py:205-218 | the options of the rows then the manual ones, sorted by label when no order is set (`ExecSpec`) |
| OptionLists.RowEntriesShape | Editor/website/editor/options.py:206-209 | one option per result row, in row order, with the row's label and value column |
| OptionLists.SingleLabel | Editor/website/editor/options.py:172-178 | a single string label column is the label itself |
| OptionLists.ExecOrdering | Editor/website/editor/options.py:211-218 | without an order the result is a sorted, stable permutation of row options plus manual options; with one, it is their concatenation |
| ValidationSettings.Configured | Editor/website/editor/validation_options.py:39-51 | no options give the defaults (`Input not valid`, empty allowed, optional); each given option overrides its own default only |
| ValidationSettings.ValidationOptions.constructor | Editor/website/editor/validation_options.py:39-51 | a new options object holds the configured settings |
| ValidationSettings.Select | Editor/website/editor/validation_options.py:25-37 | the caller's options object is returned itself; without one, a fresh object with the defaults |
| Tables.Table.constructor | Editor/website/editor/table.py:19-43 | a new table has its name and the accepted columns of the initial list (none when none are given) |
| Tables.Table.Columns | Editor/website/editor/table.py:57-93 | without an argument the columns are returned unchanged; with one, the columns become those accepted from it |
| Tables.Table.Alias | Editor/website/editor/table.py:118-135 | a fresh table under the alias name whose columns are the original ones with the table name replaced |
| Tables.AcceptKeepsExisting | Editor/website/editor/table.py:73-85 | adding columns keeps the existing list as a prefix |
| Tables.AcceptAddsOnlyOffered | Editor/website/editor/table.py:73-85 | every added column was offered and is unqualified or qualified with this table |
| Tables.AcceptTakesEveryBelonging | Editor/website/editor/table.py:73-85 | every offered column that belongs to this table ends up in the list |
| Tables.AcceptKeepsNoDuplicates | Editor/website/editor/table.py:75-76 | a list without repeats stays without repeats |
| Tables.AliasRenamesQualified | Editor/website/editor/table.py:132-133 | a column qualified with the table name becomes qualified with the alias when the column part does not contain the name |
| Utils.SplitTableColumn | Editor/website/editor/utils.py:3-15 | an undotted name gives the name and no table; a dotted name gives a table and a column, neither holding a dot |
| Utils.SplitQualified | Editor/website/editor/utils.py:11-13 | `t.c` (with any further segments) gives column `c` then table `t` |
| NestedData.Segments | Editor/website/editor/nested_data.py:24-27 | an undotted name is its own single segment; a dotted one has at least two |
| NestedData.PropExists | Editor/website/editor/nested_data.py:11-36 | the walk answers `Exists`; `None` data answers False; an undotted name answers membership |
| NestedData.ReadProp | Editor/website/editor/nested_data.py:39-62 | the walk answers `Read`; an undotted name answers the value or `None` |
| NestedData.WriteAtFailurePropagates | Editor/website/editor/nested_data.py:82-101 | a failure deeper in the walk is the failure of the whole write |
| NestedData.WriteProp | Editor/website/editor/nested_data.py:65-103 | the write answers `Write`; an undotted name is stored at the top level |
| NestedData.DescendForWrite | Editor/website/editor/nested_data.py:82-93 | the descent yields the chain of containers, or the error the whole write raises |
| NestedData.RebuildFromLeaf | Editor/website/editor/nested_data.py:95-103 | storing at the leaf and rebuilding the chain answers `WriteAt` |
| NestedData.MissingAt | Editor/website/editor/nested_data.py:30-36 | a missing segment makes the property absent; a read answers `None` for a missing leaf and False for a missing intermediate |
| NestedData.PresentAt | Editor/website/editor/nested_data.py:30-36 | when every segment is found, the property exists and its value is read |
| NestedData.Undotted | Editor/website/editor/nested_data.py:24-25 | for an undotted name, existence is membership and the read gives the value or `None` |
| NestedData.MissingIntermediate | Editor/website/editor/nested_data.py:55-57 | a missing intermediate segment: absent, and the read answers False (not `None`) |
| NestedData.MissingLeaf | Editor/website/editor/nested_data.py:61-62 | a missing last segment: absent, and the read answers `None` |
| NestedData.Present | Editor/website/editor/nested_data.py:30-36 | a reachable path exists and reads back its value |
| NestedData.WriteAtThenRead | Editor/website/editor/nested_data.py:82-103 | after a successful write, descending the path gives the written value |
| NestedData.WriteThenRead | Editor/website/editor/nested_data.py:65-103 | after a successful write the property exists and reads back the written value |
| NestedData.WriteKeepsOtherKeys | Editor/website/editor/nested_data.py:65-103 | a write adds only the first segment at the top level and leaves every other key's value alone |
| NestedData.WriteAtFresh | Editor/website/editor/nested_data.py:84-85 | a missing first segment creates nested dictionaries down to the value |
| NestedData.WriteCreatesIntermediates | Editor/website/editor/nested_data.py:84-85 | missing intermediates are created as empty dictionaries |
| NestedData.WriteAtConflict | Editor/website/editor/nested_data.py:86-91 | a non-dictionary on the path raises the shared-prefix error |
| NestedData.WriteConflict | Editor/website/editor/nested_data.py:86-91 | the same, stated for the dotted name |
| NestedData.WriteAtDuplicate | Editor/website/editor/nested_data.py:97-101 | an existing leaf raises the duplicate-field error |
| NestedData.WriteDuplicate | Editor/website/editor/nested_data.py:75-77 | an existing dotted leaf raises; an undotted name silently overwrites |
| PyValues.In | Editor/website/editor/field.py:418 | `in` on a dictionary is key membership; on `None`, a number or a boolean it raises |
| PyValues.Index | Editor/website/editor/field.py:418 | subscripting succeeds exactly on a dictionary holding the key, with its value |
| PyValues.EqReflexive | Editor/website/editor/validators.py:430 | Python equality as modelled is reflexive, so a value is a member of any list holding it |
| PyValues.ReprOneEntry | Editor/website/editor/formatters.py:100 | a one-key dictionary is shown as its key's `repr`, a colon and its value's `repr`, in braces |
| PyValues.ReprDictExample | Editor/website/editor/formatters.py:100 | `str({'a': 1})` is `{'a': 1}` |
| PyValues.ReprListExample | Editor/website/editor/formatters.py:100 | `str(["it's"])` shows the string in double quotes |
| PyStrings.Find | Editor/website/editor/nested_data.py:24 | the first occurrence of a substring, and none before it |
| PyStrings.Contains | Editor/website/editor/nested_data.py:24 | `in` on strings holds exactly when the substring occurs somewhere |
| PyStrings.Split | Editor/website/editor/utils.py:12 | at least one piece, none containing the separator |
| PyStrings.JoinSplit | Editor/website/editor/formatters.py:100 | joining the pieces of a split with the same separator gives the string back |
| PyStrings.SplitJoin | Editor/website/editor/formatters.py:116 | splitting a join of pieces without an early separator gives the pieces back |
| PyStrings.SplitHasTwo | Editor/website/editor/editor.py:1109-1115 | text holding the separator splits into at least two pieces, so `__alias` never indexes past the end |
| PyStrings.SplitCharTwice | Editor/website/editor/editor.py:688-689 | text holding a character at two places splits at it into at least three pieces |
| PyStrings.ReplaceOneChar | Editor/website/editor/formatters.py:148 | replacing one character by another substitutes it at every position and nowhere else |
| PyStrings.ReplaceAbsent | Editor/website/editor/table.py:132 | replacing an absent pattern leaves the string unchanged |
| PyStrings.RStripChar | Editor/website/editor/editor.py:1519 | `rstrip` removes exactly the trailing run of the character |
| PyStrings.Lower | Editor/website/editor/validators.py:118 | lower-casing maps each character and keeps the length |
| PyStrings.TrimStart | Editor/website/editor/validators.py:156 | leading white space removed: a suffix that starts with no space |
| PyStrings.TrimEnd | Editor/website/editor/validators.py:156 | trailing white space removed: a prefix that ends with no space |
| PyStrings.DecimalDigits | Editor/website/editor/validators.py:359-362 | the decimal text of a number is all digits and reads back as the number |
| PyStrings.Hex | Editor/website/editor/editor.py:197 | the hex text of a checksum is non-empty and has no underscore |
| PyStrings.LexLeTotal | Editor/website/editor/options.py:216 | string order is total |
| PyStrings.LexLeTransitive | Editor/website/editor/options.py:216 | string order is transitive |
| PyStrings.LexLeReflexive | Editor/website/editor/options.py:216 | string order is reflexive |
| PyStrings.LexLeAntisymmetric | Editor/website/editor/options.py:216 | two strings each ordered before the other are equal |
| PyStrings.LeastExists | Editor/website/editor/formatters.py:114-116 | every non-empty set of keys has a least key |
| PyStrings.KeyOrderSingle | Editor/website/editor/formatters.py:114-116 | a dictionary with one key lists just that key |
| PyStrings.KeyOrder | Editor/website/editor/formatters.py:114-116 | the keys of a dictionary listed once each, all of them and nothing else, in ascending order |
| PyStrings.StrRepr | Editor/website/editor/formatters.py:100 | a string's `repr` starts and ends with the same quote, a double quote exactly when the string holds a single quote and no double quote |
| PyStrings.StrReprPlain | Editor/website/editor/formatters.py:100 | a string of plain characters is shown as itself in single quotes |
| PyStrings.StrReprDoubleQuoted | Editor/website/editor/formatters.py:100 | a string holding single quotes and no double quote or escapable character is shown as itself in double quotes |
| PyStrings.StrReprBothQuotes | Editor/website/editor/formatters.py:100 | a string holding both quotes keeps single quotes and escapes its single quote |

## Left out

- The database library: SQL statements, sessions and commits are not modelled. This covers the read query of `__get`, the statements of `_insert_or_update_table`, `__remove_table`, `__get_table`, the SQLAlchemy table object of `Table`, and the query in `Options._exec`. The model uses an abstract store instead: a map from table name to a list of records, with a counter for generated keys. Planned deletions are recorded as `Removal` values and not carried out.
- Generated keys come from the store's counter; the source asks the database for `inserted_primary_key`. A generated key is stored as text, so an update on the id text matches it; column types are not modelled.
- Writes.Upsert: a write set that fills the key column itself is stored as given, but the answer is still the next generated key, where the database answers the supplied value; a duplicate key does not raise.
- `zlib.crc32` is a foreign call, so the checksum is a function parameter of the editor. Only its hexadecimal formatting is modelled.
- Dates: the datetime formatters, `date_format` and the `isoformat` conversion of key values. Key values are taken to be strings, numbers, booleans or `None`.
- Floating-point values and the validators that compare them (`min_num`, `max_num`, `min_max_num`). `numeric` is modelled on integers and text only.
- `email`, `url`, `xss`, `_xss_safety` and `db_values`. They depend on a regular-expression engine, third-party packages and a live query.
- Validators.MaxLenRaises: `max_len` is modelled as written. It compares against the builtin `max`, so it raises `TypeError` instead of checking an upper length. No working upper-length check is modelled.
- `_pkey_validate_insert`: it accepts every non-empty key list, and its rejection loop cannot run, so the model performs no compound-key insert check.
- Mjoin (`self._join`): its class is not part of this model. Its create, update and remove calls are omitted.
- Uploads, file clean-up, debug and trace output, the read path `__get` with its `preGet`/`postGet` events, and the HTTP controllers.
- The whole of `__process` is not composed into one operation. Its steps are modelled one by one: the pre-write hooks, validation, writes, removals and the action. Not modelled are its global validators, the "No data detected" error, the re-keying of submitted data, and the `write*`/`post*`/`processed` events.
- The events `validatedCreate`, `writeCreate`, `validateEdit`, `writeEdit` and `postRemoveAll` are not fired in `Insert`, `Update` and `Remove`. Their answers are ignored by the source, and handlers are pure functions in the model, so their side effects are not captured.
- Editors.Editor.InsertOrUpdate: on failure the contract says nothing about the store. The source keeps the table writes made before the failing one.
- Field accessors outside this core (`db_field`, `get`, `get_formatter`, `set_formatter`, `set_value`, `get_value`, `http`, `name`, `options`, `_options_exec`) are plain reads and writes of the class's fields. They have no members of their own.
- `Field._write`, `_write_prop` and the setdefault walk of form keys work on values: the dictionaries are rebuilt rather than updated in place, so aliasing between dictionaries is not modelled.
- `Options`:
  - `limit`, `order` and `where` raise once stored, so a configured limit or condition is never applied.
  - With an order set, the database's ordering is not modelled.
  - Left joins are recorded only.
- Character classes follow ASCII: `lower`, `isdigit` and `isnumeric` do not cover other Unicode characters (`isnumeric` is taken as decimal digits only). `isspace`, and so `strip`, follow Python's full set of whitespace characters.
- PyValues.Repr: a dictionary lists its keys in ascending order, where Python keeps insertion order; characters outside ASCII are kept as they are, where Python escapes the non-printable ones.
- Formatters.Implode: a dictionary's keys are joined in ascending order, where Python joins them in insertion order, so the result is exact only for dictionaries of at most one key.
- Dictionaries are unordered maps. Where the source iterates submitted rows in order, the model takes an ordered list of rows.

## Findings

| source | as written | input that shows it | evidently intended | confidence | as-written member | corrected member |
|---|---|---|---|---|---|---|
| Editor/website/editor/editor.py:1426-1446 | the `preCreate`/`preEdit` loop iterates the live key view of `data['data']` and pops the cancelled row from it, so the next iteration raises `RuntimeError` | two submitted rows, the second one cancelled by a handler answering `False` | iterate over a snapshot of the keys: drop every cancelled row, record its key in `cancelled`, keep the others in order | not executed | Editors.Editor.PreWriteHooksAsWritten, Editors.CancellingRaises | Editors.Editor.PreWriteHooks, Editors.KeptRowsExact |
