/** The compound primary-key codec: the values of the key columns of a row
    are joined into one row id, and a row id is split back into its column
    values.  The separator carries a checksum of the key column names. */
module PrimaryKeys {
  import opened Wrappers
  import opened PyStrings
  import opened PyValues
  import opened NestedData

  const MissingKeyMessage: string := "Primary key element is not available in the data set"
  const MismatchMessage: string := "Primary key data does not match submitted data"

  /** The key configuration of an editor: the key columns, the prefix of
      the row ids sent to the client, and the checksum of a string (CRC-32
      of its UTF-8 bytes, taken as given). */
  datatype KeyCodec = KeyCodec(pkey: seq<string>, idPrefix: string, crc: string -> nat)

  /** `_pkey_separator()`: the hexadecimal checksum of the comma-joined key
      names, between underscores. */
  function Separator(codec: KeyCodec): (sep: string)
    ensures |sep| >= 3 && sep[0] == '_' && sep[|sep| - 1] == '_'
  {
    "_" + Hex(codec.crc(Join(",", codec.pkey))) + "_"
  }

  /** The value of one key column: for a flat row `row[column]`, or `None`
      when the column is absent; otherwise the nested read of the column's
      dotted name. */
  function KeyElement(row: Value, column: string, flat: bool): Res<Value> {
    if flat then
      var present :- In(column, row);
      if present then Index(row, column) else Success(Null)
    else Read(column, row)
  }

  /** The text of each key column's value, in key order; a missing (`None`)
      value raises. */
  function KeyStrings(pkey: seq<string>, row: Value, flat: bool): Res<seq<string>>
    decreases |pkey|
  {
    if |pkey| == 0 then Success([])
    else
      var front :- KeyStrings(pkey[..|pkey| - 1], row, flat);
      var v :- KeyElement(row, pkey[|pkey| - 1], flat);
      if v.Null? then Failure(Raised(MissingKeyMessage)) else Success(front + [ToStr(v)])
  }

  /** What `pkey_to_value(row, flat)` returns. */
  function RowId(codec: KeyCodec, row: Value, flat: bool): Res<string> {
    var id :- KeyStrings(codec.pkey, row, flat);
    Success(Join(Separator(codec), id))
  }

  /** A failure on a prefix of the key columns is the failure of the whole. */
  lemma {:induction false} KeyStringsPrefixFailure(pkey: seq<string>, row: Value, flat: bool, k: nat)
    requires k <= |pkey| && KeyStrings(pkey[..k], row, flat).Failure?
    ensures KeyStrings(pkey, row, flat) == KeyStrings(pkey[..k], row, flat)
    decreases |pkey| - k
  {
    if k == |pkey| {
      assert pkey[..k] == pkey;
    } else {
      var n := |pkey| - 1;
      assert pkey[..n][..k] == pkey[..k];
      KeyStringsPrefixFailure(pkey[..n], row, flat, k);
    }
  }

  /** One more key column: its text is appended, or the walk stops with
      the column's error. */
  lemma KeyStringsStep(pkey: seq<string>, row: Value, flat: bool, i: nat, id: seq<string>)
    requires i < |pkey| && KeyStrings(pkey[..i], row, flat) == Success(id)
    ensures var e := KeyElement(row, pkey[i], flat);
      KeyStrings(pkey[..i + 1], row, flat)
        == if e.Failure? then Failure(e.error)
           else if e.value.Null? then Failure(Raised(MissingKeyMessage))
           else Success(id + [ToStr(e.value)])
  {
    assert pkey[..i + 1][..i] == pkey[..i];
  }

  /** `pkey_to_value(row, flat)`. */
  method KeyToValue(codec: KeyCodec, row: Value, flat: bool) returns (r: Res<string>)
    ensures r == RowId(codec, row, flat)
  {
    var id :- CollectKeyStrings(codec.pkey, row, flat);
    return Success(Join(Separator(codec), id));
  }

  /** The loop of `pkey_to_value` over the key columns. */
  method CollectKeyStrings(pkey: seq<string>, row: Value, flat: bool) returns (r: Res<seq<string>>)
    ensures r == KeyStrings(pkey, row, flat)
  {
    var id: seq<string> := [];
    for i := 0 to |pkey|
      invariant KeyStrings(pkey[..i], row, flat) == Success(id)
    {
      var element := ReadKeyElement(row, pkey[i], flat);
      KeyStringsStep(pkey, row, flat, i, id);
      if element.Failure? || element.value.Null? {
        KeyStringsPrefixFailure(pkey, row, flat, i + 1);
        return KeyStrings(pkey[..i + 1], row, flat);
      }
      id := id + [ToStr(element.value)];
    }
    assert pkey[..|pkey|] == pkey;
    return Success(id);
  }

  /** The value of one key column, as the loop of `pkey_to_value` reads it. */
  method ReadKeyElement(row: Value, column: string, flat: bool) returns (r: Res<Value>)
    ensures r == KeyElement(row, column, flat)
  {
    if flat {
      var present :- In(column, row);
      if present {
        r := Index(row, column);
      } else {
        r := Success(Null);
      }
    } else {
      r := ReadProp(column, row);
    }
  }

  /** The pieces of a row id: the prefix removed everywhere, then split at
      the separator. */
  function IdParts(codec: KeyCodec, value: string): seq<string> {
    Split(Replace(value, codec.idPrefix, ""), Separator(codec))
  }

  /** The flat dictionary `{names[i]: parts[i]}`, later names overwriting
      earlier ones. */
  function FlatObject(names: seq<string>, parts: seq<string>): map<string, Value>
    requires |names| == |parts|
    decreases |names|
  {
    if |names| == 0 then map[]
    else FlatObject(names[..|names| - 1], parts[..|parts| - 1])[names[|names| - 1] := Str(parts[|parts| - 1])]
  }

  /** The nested dictionary built by writing each part at its dotted name. */
  function NestedObject(names: seq<string>, parts: seq<string>): Res<map<string, Value>>
    requires |names| == |parts|
  {
    NestedFrom(map[], names, parts)
  }

  /** `acc` after each part is written at its dotted name, in order. */
  function NestedFrom(acc: map<string, Value>, names: seq<string>, parts: seq<string>): Res<map<string, Value>>
    requires |names| == |parts|
    decreases |names|
  {
    if |names| == 0 then Success(acc)
    else
      var next :- Write(acc, names[0], Str(parts[0]));
      NestedFrom(next, names[1..], parts[1..])
  }

  /** What `pkey_to_object(value, flat, pkey)` returns; without `pkey` the
      codec's key columns are used.  The separator is always the codec's. */
  function RowObject(codec: KeyCodec, value: string, flat: bool, pkey: Option<seq<string>>): Res<map<string, Value>> {
    var parts := IdParts(codec, value);
    var names := if pkey.None? then codec.pkey else pkey.value;
    if |names| != |parts| then Failure(Raised(MismatchMessage))
    else if flat then Success(FlatObject(names, parts))
    else NestedObject(names, parts)
  }

  /** `pkey_to_object(value, flat, pkey)`. */
  method KeyToObject(codec: KeyCodec, value: string, flat: bool, pkey: Option<seq<string>>)
    returns (r: Res<map<string, Value>>)
    ensures r == RowObject(codec, value, flat, pkey)
  {
    var stripped := Replace(value, codec.idPrefix, "");
    var idParts := Split(stripped, Separator(codec));
    assert idParts == IdParts(codec, value);
    var names := if pkey.None? then codec.pkey else pkey.value;
    if |names| != |idParts| {
      return Failure(Raised(MismatchMessage));
    }
    if flat {
      var arr := BuildFlat(names, idParts);
      return Success(arr);
    }
    r := BuildNested(names, idParts);
  }

  /** The loop of `pkey_to_object` for flat rows. */
  method BuildFlat(names: seq<string>, parts: seq<string>) returns (arr: map<string, Value>)
    requires |names| == |parts|
    ensures arr == FlatObject(names, parts)
  {
    arr := map[];
    for i := 0 to |parts|
      invariant arr == FlatObject(names[..i], parts[..i])
    {
      assert names[..i + 1][..i] == names[..i] && parts[..i + 1][..i] == parts[..i];
      arr := arr[names[i] := Str(parts[i])];
    }
    assert names[..|names|] == names && parts[..|parts|] == parts;
  }

  /** The loop of `pkey_to_object` for nested rows. */
  method BuildNested(names: seq<string>, parts: seq<string>) returns (r: Res<map<string, Value>>)
    requires |names| == |parts|
    ensures r == NestedObject(names, parts)
  {
    var arr: map<string, Value> := map[];
    for i := 0 to |parts|
      invariant NestedFrom(arr, names[i..], parts[i..]) == NestedObject(names, parts)
    {
      assert names[i..][1..] == names[i + 1..] && parts[i..][1..] == parts[i + 1..];
      var written := WriteProp(arr, names[i], Str(parts[i]));
      if written.Failure? {
        return Failure(written.error);
      }
      arr := written.value;
    }
    return Success(arr);
  }

  // ---------------------------------------------------------------------
  // Properties

  /** A flat dictionary row gives a key exactly when every key column is
      present and not `None`; then the pieces are the text of the values. */
  lemma {:induction false} KeyStringsFlat(pkey: seq<string>, row: map<string, Value>)
    ensures KeyStrings(pkey, Dict(row), true).Success? <==>
      forall k :: 0 <= k < |pkey| ==> pkey[k] in row && !row[pkey[k]].Null?
    ensures KeyStrings(pkey, Dict(row), true).Failure? ==>
      KeyStrings(pkey, Dict(row), true) == Failure(Raised(MissingKeyMessage))
    ensures KeyStrings(pkey, Dict(row), true).Success? ==>
      var id := KeyStrings(pkey, Dict(row), true).value;
      |id| == |pkey| && forall k :: 0 <= k < |pkey| ==> id[k] == ToStr(row[pkey[k]])
    decreases |pkey|
  {
    if |pkey| > 0 {
      var front := pkey[..|pkey| - 1];
      KeyStringsFlat(front, row);
      assert forall k :: 0 <= k < |front| ==> front[k] == pkey[k];
    }
  }

  /** `pkey_to_value` raises exactly when a key column is absent or `None`. */
  lemma KeyToValueMissing(codec: KeyCodec, row: map<string, Value>)
    ensures RowId(codec, Dict(row), true).Failure? <==>
      exists k :: 0 <= k < |codec.pkey| && (codec.pkey[k] !in row || row[codec.pkey[k]].Null?)
    ensures RowId(codec, Dict(row), true).Failure? ==>
      RowId(codec, Dict(row), true) == Failure(Raised(MissingKeyMessage))
  {
    KeyStringsFlat(codec.pkey, row);
  }

  /** The flat object of distinct names maps each name to its part. */
  lemma FlatObjectLookup(names: seq<string>, parts: seq<string>)
    requires |names| == |parts|
    requires forall i, j :: 0 <= i < j < |names| ==> names[i] != names[j]
    ensures FlatObject(names, parts).Keys == set k | 0 <= k < |names| :: names[k]
    ensures forall k :: 0 <= k < |names| ==> FlatObject(names, parts)[names[k]] == Str(parts[k])
  {
    FlatObjectKeys(names, parts);
    forall k | 0 <= k < |names| ensures FlatObject(names, parts)[names[k]] == Str(parts[k]) {
      FlatObjectLast(names, parts, k);
    }
  }

  /** The flat object of names that may repeat: every name is a key, and
      holds the part of its last occurrence. */
  lemma {:induction false} FlatObjectLast(names: seq<string>, parts: seq<string>, k: nat)
    requires |names| == |parts| && k < |names|
    requires forall j :: k < j < |names| ==> names[j] != names[k]
    ensures names[k] in FlatObject(names, parts) && FlatObject(names, parts)[names[k]] == Str(parts[k])
    decreases |names|
  {
    var n := |names| - 1;
    if k < n {
      FlatObjectLast(names[..n], parts[..n], k);
    }
  }

  /** A prefix-free id joined from pieces that let the separator start
      only after them splits back into those pieces. */
  lemma IdPartsOfJoin(codec: KeyCodec, parts: seq<string>)
    requires |parts| >= 1
    requires forall k :: 0 <= k < |parts| ==> NoEarlySep(parts[k], Separator(codec))
    requires |codec.idPrefix| == 0 || !Contains(Join(Separator(codec), parts), codec.idPrefix)
    ensures IdParts(codec, Join(Separator(codec), parts)) == parts
  {
    var id := Join(Separator(codec), parts);
    if |codec.idPrefix| == 0 {
      ReplaceEmptyByEmpty(id);
    } else {
      ReplaceAbsent(id, codec.idPrefix, "");
    }
    SplitJoin(parts, Separator(codec));
  }

  /** Key round trip: a flat row whose key values are present, not `None`,
      and let the separator start only after them, gives an id which, when
      it holds no prefix, splits back into the text of each value. */
  lemma KeyRoundTrip(codec: KeyCodec, row: map<string, Value>)
    requires |codec.pkey| >= 1
    requires forall k :: 0 <= k < |codec.pkey| ==>
      (codec.pkey[k] in row && !row[codec.pkey[k]].Null?
       && NoEarlySep(ToStr(row[codec.pkey[k]]), Separator(codec)))
    ensures RowId(codec, Dict(row), true).Success?
    ensures var id := RowId(codec, Dict(row), true).value;
      (|codec.idPrefix| == 0 || !Contains(id, codec.idPrefix)) ==>
        (RowObject(codec, id, true, None).Success?
         && RowObject(codec, id, true, None).value.Keys == (set k | 0 <= k < |codec.pkey| :: codec.pkey[k])
         && forall k :: 0 <= k < |codec.pkey| ==>
              RowObject(codec, id, true, None).value[codec.pkey[k]] == Str(ToStr(row[codec.pkey[k]])))
  {
    var pkey := codec.pkey;
    KeyStringsFlat(pkey, row);
    var parts := KeyStrings(pkey, Dict(row), true).value;
    var id := Join(Separator(codec), parts);
    if |codec.idPrefix| == 0 || !Contains(id, codec.idPrefix) {
      IdPartsOfJoin(codec, parts);
      FlatObjectKeys(pkey, parts);
      forall k | 0 <= k < |pkey| ensures FlatObject(pkey, parts)[pkey[k]] == Str(parts[k]) {
        FlatObjectLast(pkey, parts, LastIndexOf(pkey, k));
      }
    }
  }

  /** The position of the last occurrence of `s[k]`. */
  function LastIndexOf(s: seq<string>, k: nat): (j: nat)
    requires k < |s|
    ensures k <= j < |s| && s[j] == s[k]
    ensures forall i :: j < i < |s| ==> s[i] != s[k]
    decreases |s| - k
  {
    if exists i :: k < i < |s| && s[i] == s[k] then
      var i :| k < i < |s| && s[i] == s[k];
      LastIndexOf(s, i)
    else k
  }

  lemma {:induction false} FlatObjectKeys(names: seq<string>, parts: seq<string>)
    requires |names| == |parts|
    ensures FlatObject(names, parts).Keys == set k | 0 <= k < |names| :: names[k]
    decreases |names|
  {
    if |names| > 0 {
      var n := |names| - 1;
      FlatObjectKeys(names[..n], parts[..n]);
      assert (set k | 0 <= k < |names| :: names[k]) == (set k | 0 <= k < n :: names[..n][k]) + {names[n]};
    }
  }

  /** With underscore-free value texts the separator, which begins with an
      underscore, cannot start early, and the round trip holds. */
  lemma KeyRoundTripUnderscoreFree(codec: KeyCodec, row: map<string, Value>)
    requires |codec.pkey| >= 1
    requires forall k :: 0 <= k < |codec.pkey| ==>
      (codec.pkey[k] in row && !row[codec.pkey[k]].Null? && '_' !in ToStr(row[codec.pkey[k]]))
    ensures RowId(codec, Dict(row), true).Success?
    ensures var id := RowId(codec, Dict(row), true).value;
      (|codec.idPrefix| == 0 || !Contains(id, codec.idPrefix)) ==>
        (RowObject(codec, id, true, None).Success?
         && forall k :: 0 <= k < |codec.pkey| ==>
              codec.pkey[k] in RowObject(codec, id, true, None).value
              && RowObject(codec, id, true, None).value[codec.pkey[k]] == Str(ToStr(row[codec.pkey[k]])))
  {
    forall k | 0 <= k < |codec.pkey|
      ensures NoEarlySep(ToStr(row[codec.pkey[k]]), Separator(codec))
    {
      NoEarlySepFromFirstChar(ToStr(row[codec.pkey[k]]), Separator(codec));
    }
    KeyRoundTrip(codec, row);
  }

  /** The other way round: a prefix-free id with one piece per distinct key
      column is rebuilt from its flat object. */
  lemma IdRoundTrip(codec: KeyCodec, id: string)
    requires forall i, j :: 0 <= i < j < |codec.pkey| ==> codec.pkey[i] != codec.pkey[j]
    requires |codec.idPrefix| == 0 || !Contains(id, codec.idPrefix)
    requires |Split(id, Separator(codec))| == |codec.pkey|
    ensures RowObject(codec, id, true, None).Success?
    ensures RowId(codec, Dict(RowObject(codec, id, true, None).value), true) == Success(id)
  {
    var sep := Separator(codec);
    if |codec.idPrefix| == 0 {
      ReplaceEmptyByEmpty(id);
    } else {
      ReplaceAbsent(id, codec.idPrefix, "");
    }
    var parts := Split(id, sep);
    assert IdParts(codec, id) == parts;
    KeyStringsOfFlat(codec.pkey, parts);
    JoinSplit(id, sep);
  }

  /** Reading the key columns back out of the flat object built from them
      gives the parts again. */
  lemma KeyStringsOfFlat(pkey: seq<string>, parts: seq<string>)
    requires |pkey| == |parts|
    requires forall i, j :: 0 <= i < j < |pkey| ==> pkey[i] != pkey[j]
    ensures KeyStrings(pkey, Dict(FlatObject(pkey, parts)), true) == Success(parts)
  {
    var m := FlatObject(pkey, parts);
    FlatObjectLookup(pkey, parts);
    KeyStringsFlat(pkey, m);
    var strs := KeyStrings(pkey, Dict(m), true).value;
    assert strs == parts;
  }

  /** An id with a different number of pieces than key columns is
      rejected. */
  lemma KeyToObjectArity(codec: KeyCodec, id: string, flat: bool)
    requires |codec.idPrefix| == 0 || !Contains(id, codec.idPrefix)
    requires |Split(id, Separator(codec))| != |codec.pkey|
    ensures RowObject(codec, id, flat, None) == Failure(Raised(MismatchMessage))
  {
    if |codec.idPrefix| == 0 {
      ReplaceEmptyByEmpty(id);
    } else {
      ReplaceAbsent(id, codec.idPrefix, "");
    }
  }

  /** Read through the nested path, a dotted key column whose table part is
      absent yields `False`, not `None`, and so the text `False` instead of
      the missing-key error. */
  lemma NestedKeyMissingIntermediate(codec: KeyCodec, t: string, c: string, row: map<string, Value>)
    requires codec.pkey == [t + "." + c] && '.' !in t && '.' !in c && t !in row
    ensures RowId(codec, Dict(row), false) == Success("False")
  {
    var name := t + "." + c;
    SplitTwoDotted(t, c);
    MissingIntermediate(name, Dict(row), 0, row);
    assert codec.pkey[..0] == [];
    assert KeyElement(Dict(row), name, false) == Success(Bool(false));
    assert ToStr(Bool(false)) == "False";
    assert KeyStrings(codec.pkey[..0], Dict(row), false) == Success([]);
    assert codec.pkey[|codec.pkey| - 1] == name && codec.pkey[..|codec.pkey| - 1] == codec.pkey[..0];
    assert [] + ["False"] == ["False"];
    assert KeyStrings(codec.pkey, Dict(row), false) == Success(["False"]);
  }

  lemma SplitTwoDotted(t: string, c: string)
    requires '.' !in t && '.' !in c
    ensures Contains(t + "." + c, ".") && Segments(t + "." + c) == [t, c]
  {
    NoEarlySepFromFirstChar(t, ".");
    NoEarlySepFromFirstChar(c, ".");
    SplitJoin([t, c], ".");
    assert Join(".", [t, c]) == t + "." + c;
    assert OccursAt(t + "." + c, ".", |t|);
  }
}
